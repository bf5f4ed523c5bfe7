/** What one tick of the worker does to the frame store and to what it
    publishes, stated on values: the specification the worker's `Rotate`
    method is proved against. */
module Rotation {
  import opened Results
  import opened Base64
  import opened FrameNames

  /** The frame store directory the capture process writes into. */
  const ImageDir := "images"

  /** `os.path.join("images", name)` for a plain file name. */
  function PathOf(name: string): (p: string)
    ensures |p| == |ImageDir| + 1 + |name| && p[|ImageDir|] == '/'
    ensures p[..|ImageDir|] == ImageDir && p[|ImageDir| + 1..] == name
  {
    ImageDir + "/" + name
  }

  /** Distinct files have distinct paths, so comparing paths compares names. */
  lemma PathOfInjective(a: string, b: string)
    ensures PathOf(a) == PathOf(b) <==> a == b
  {
    if PathOf(a) == PathOf(b) {
      assert a == PathOf(a)[|ImageDir| + 1..];
      assert b == PathOf(b)[|ImageDir| + 1..];
    }
  }

  /** The media type prefix of every broadcast. */
  const DataPrefix := "data:image/jpeg;base64,"

  /** The broadcast text for a frame: a data URL with the frame's bytes in
      Base64. */
  function Payload(frame: seq<byte>): (p: string)
    ensures |p| == |DataPrefix| + 4 * ((|frame| + 2) / 3) && p[..|DataPrefix|] == DataPrefix
  {
    DataPrefix + Encode(frame)
  }

  /** A subscriber that strips the prefix and decodes the rest gets the frame's
      bytes back, and nothing but the payload of that frame decodes to them. */
  lemma PayloadDecodes(frame: seq<byte>, other: seq<byte>)
    ensures |Payload(frame)| >= |DataPrefix| && Payload(frame)[..|DataPrefix|] == DataPrefix
    ensures Decode(Payload(frame)[|DataPrefix|..]) == Some(frame)
    ensures Payload(frame) == Payload(other) <==> frame == other
  {
    assert Payload(frame)[|DataPrefix|..] == Encode(frame);
    DecodeEncode(frame);
    if Payload(frame) == Payload(other) {
      assert Payload(other)[|DataPrefix|..] == Encode(other);
      DecodeEncode(other);
    }
  }

  /** Everything a tick reads or writes: the directory (file name to bytes),
      the path last compressed, the shared latest frame, and the logs of the
      broadcasts sent and of the paths handed to the compressor. */
  datatype Frames = Frames(
    store: map<string, seq<byte>>,
    compressed: string,
    latest: Option<seq<byte>>,
    published: seq<string>,
    converted: seq<string>)

  /** The second half of a tick, once `name` is the file kept: compress it in
      place unless its path is the one compressed last, remember its path,
      read its bytes into the latest frame and broadcast them. */
  function Refresh(f: Frames, name: string, convert: seq<byte> -> seq<byte>): (r: Frames)
    requires name in f.store
    ensures r.store.Keys == f.store.Keys && r.compressed == PathOf(name)
    ensures r.latest == Some(r.store[name]) && |r.published| == |f.published| + 1
    ensures forall m :: m in f.store && m != name ==> r.store[m] == f.store[m]
    ensures r.store[name] == if PathOf(name) != f.compressed then convert(f.store[name]) else f.store[name]
    ensures r.published == f.published + [Payload(r.store[name])]
    ensures r.converted == if PathOf(name) != f.compressed then f.converted + [PathOf(name)] else f.converted
  {
    var path := PathOf(name);
    var bytes := if path != f.compressed then convert(f.store[name]) else f.store[name];
    Frames(
      f.store[name := bytes],
      path,
      Some(bytes),
      f.published + [Payload(bytes)],
      if path != f.compressed then f.converted + [path] else f.converted)
  }

  /** One tick on a directory the worker found as `f.store`. With no file,
      nothing happens. Otherwise every file but the newest is deleted and the
      newest is refreshed. */
  ghost function Rotate(f: Frames, convert: seq<byte> -> seq<byte>): (r: Frames)
    ensures r.store.Keys <= f.store.Keys && |r.store.Keys| == if f.store == map[] then 0 else 1
    ensures |r.published| == |f.published| + |r.store.Keys|
  {
    if f.store == map[] then f
    else
      var name := Newest(f.store.Keys);
      Refresh(f.(store := map[name := f.store[name]]), name, convert)
  }

  /** A tick that finds no file changes nothing: it deletes nothing, compresses
      nothing, keeps `compressed` and the latest frame, and broadcasts nothing. */
  lemma RotateEmpty(f: Frames, convert: seq<byte> -> seq<byte>)
    requires f.store == map[]
    ensures Rotate(f, convert) == f
  {
  }

  /** A tick that finds files leaves exactly one: the one whose name sorts
      after every other name present at the start of the tick. It holds the
      compression of its former bytes when its path differs from the one
      compressed last, and its former bytes otherwise. */
  lemma RotateKeepsNewest(f: Frames, convert: seq<byte> -> seq<byte>)
    requires f.store != map[]
    ensures var f' := Rotate(f, convert);
      exists n :: f'.store.Keys == {n} && n in f.store
        && (forall m :: m in f.store && m != n ==> Less(m, n))
        && f'.store[n] == (if PathOf(n) != f.compressed then convert(f.store[n]) else f.store[n])
  {
  }

  /** The compressor runs on a tick exactly when the newest path differs from
      the one compressed last, runs on that path and no other, and afterwards
      `compressed` names the newest path. */
  lemma RotateCompressesOnChange(f: Frames, convert: seq<byte> -> seq<byte>)
    requires f.store != map[]
    ensures var f' := Rotate(f, convert); var path := PathOf(Newest(f.store.Keys));
      && f'.compressed == path
      && (path != f.compressed ==> f'.converted == f.converted + [path])
      && (path == f.compressed ==> f'.converted == f.converted)
  {
  }

  /** After a tick that finds files, the latest frame is the surviving file's
      bytes, and exactly one broadcast was appended: the data URL of those
      bytes, which starts with the media type prefix and whose rest decodes to
      them. */
  lemma RotatePublishesLatest(f: Frames, convert: seq<byte> -> seq<byte>)
    requires f.store != map[]
    ensures var f' := Rotate(f, convert); var n := Newest(f.store.Keys);
      && f'.latest == Some(f'.store[n])
      && f'.published == f.published + [Payload(f'.store[n])]
      && f'.published[|f.published|][..|DataPrefix|] == DataPrefix
      && Decode(f'.published[|f.published|][|DataPrefix|..]) == f'.latest
  {
    var f' := Rotate(f, convert);
    var n := Newest(f.store.Keys);
    PayloadDecodes(f'.store[n], f'.store[n]);
    assert f'.published[|f.published|] == Payload(f'.store[n]);
  }

  /** A second tick with no new file deletes nothing and does not compress
      again; as the worker is written, it still re-reads the file and
      broadcasts the same payload once more. */
  lemma RotateTwiceCompressesOnce(f: Frames, convert: seq<byte> -> seq<byte>)
    requires f.store != map[]
    ensures var f1 := Rotate(f, convert); var f2 := Rotate(f1, convert);
      && f2.store == f1.store && f2.compressed == f1.compressed
      && f2.latest == f1.latest && f2.converted == f1.converted
      && |f1.converted| <= |f.converted| + 1
      && f2.published == f1.published + [f1.published[|f1.published| - 1]]
  {
    var f1 := Rotate(f, convert);
    var n := Newest(f.store.Keys);
    assert f1.store.Keys == {n};
    NewestUnique(Newest(f1.store.Keys), n, f1.store.Keys);
  }

  /** The worked example: files f1, f2, f3 and nothing compressed yet. The
      first tick deletes f1 and f2, compresses f3 and broadcasts it; the second
      tick, with no new file, deletes and compresses nothing but broadcasts the
      same frame again. */
  lemma ThreeFrames(b1: seq<byte>, b2: seq<byte>, b3: seq<byte>, convert: seq<byte> -> seq<byte>)
    ensures var f0 := Frames(map["f1" := b1, "f2" := b2, "f3" := b3], "", None, [], []);
      var f1 := Rotate(f0, convert); var f2 := Rotate(f1, convert);
      && f1.store == map["f3" := convert(b3)]
      && f1.converted == ["images/f3"]
      && f1.latest == Some(convert(b3))
      && f1.published == [Payload(convert(b3))]
      && f2.store == f1.store && f2.converted == f1.converted && f2.latest == f1.latest
      && f2.published == [Payload(convert(b3)), Payload(convert(b3))]
  {
    var f0 := Frames(map["f1" := b1, "f2" := b2, "f3" := b3], "", None, [], []);
    var keys := f0.store.Keys;
    assert keys == {"f1", "f2", "f3"};
    assert Less("1", "3") && Less("2", "3");
    assert Less("f1", "f3") && Less("f2", "f3");
    assert IsNewest("f3", keys);
    NewestUnique(Newest(keys), "f3", keys);
    assert PathOf("f3") == "images/f3";
    RotateTwiceCompressesOnce(f0, convert);
  }
}
