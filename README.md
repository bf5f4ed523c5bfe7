# catpic worker — a Dafny model

catpic is a small web cam server. Its worker thread, `CatHandler`, runs an
external capture program (`imagesnap`) that drops one JPEG file into the
`images` directory every two seconds. Every two seconds the worker does the
following:

- it deletes every file but the newest (names sort in capture order);
- it compresses the newest file in place with `convert`, unless that path was
  the one compressed last;
- it reads the file into the application's shared `latest` slot;
- it broadcasts the file to every websocket subscriber as a
  `data:image/jpeg;base64,...` URL.

A watchdog kills and restarts the capture program once it is more than 15
minutes old. Starting the program empties the directory.

The model takes these forms:

- `CatPic.CatHandler` is a class whose fields are the worker's state:
  - the directory, as a map from file name to bytes;
  - the path compressed last;
  - whether a process handle is held, and when the process was started;
  - ghost logs of the broadcasts sent, of the paths handed to the compressor
    and of the clock readings at which the watchdog restarted the process.
- `CatPic.Root` holds the shared `latest` frame.
- The compressor is a function the worker is given.
- Clock readings are integer milliseconds passed in as parameters.
- One iteration of the worker's loop is `Tick`. Its steps are `Watchdog`
  (`Stop`, then `Start`) and `Rotate`. `Rotate` lists the directory
  (`ScanDir`), sorts the names, deletes the older files (`Unlink`) and calls
  `Refresh` on the survivor.
- `Supervise` runs the watchdog checks of successive iterations. It is proved
  to log exactly the restarts `Schedule.Restarts` computes and to keep
  `proctime` equal to `Schedule.StartedAt`. The cadence lemmas of `Schedule`
  (`RestartsSpaced`, `StartedAtLastRestart`, `AgeBounded`) are stated about
  those two functions, so they hold of the worker's restart log and start time.
- `Rotate` is proved against `Rotation.Rotate`, a function on values, and the
  promised properties are proved as lemmas about that function.
- Python's ordering of `str` values (code-point lexicographic, with a proper
  prefix first) is `FrameNames.Less`. `sorted` is modelled by an insertion
  sort, `Sort`; on distinct names every correct sort gives the same list.
  The newest name is `FrameNames.Newest`.
- The broadcast payload uses `Base64.Encode`, the encoding of section 4 of
  RFC 4648. It is proved inverse to a strict decoder in both directions.

The code re-reads and re-broadcasts the kept file on every tick that finds
one, even when no new frame arrived, so it is not a change-only publisher.
The model follows the code: a second tick with no new file compresses nothing
and deletes nothing, but broadcasts the same payload again
(`Rotation.RotateTwiceCompressesOnce`, `Rotation.ThreeFrames`).

## Model

| member | source | states |
|---|---|---|
| `CatPic.CatHandler.constructor` | catpic.py:22-33 | the worker starts with nothing compressed, a process handle held, `proctime` the start time and empty logs; the directory is emptied by the first start |
| `CatPic.CatHandler.Start` | catpic.py:62-72 | fails with "Proc already running!" and changes nothing when a handle exists; otherwise ends with an empty directory, a handle held and `proctime == now` |
| `CatPic.CatHandler.Stop` | catpic.py:55-60 | fails with "No proc to kill" when no handle exists; otherwise drops the handle; either way the directory and `proctime` are untouched |
| `CatPic.CatHandler.Watchdog` | catpic.py:35-37 | stops then starts the process exactly when `now - proctime` is strictly above 15 minutes; after such a restart the handle is held, `proctime == now`, the directory is empty and `now` is appended to the restart log; otherwise nothing changes |
| `CatPic.CatHandler.ScanDir` | catpic.py:39 | lists every file of the directory exactly once (as a multiset the listing equals the directory's names) |
| `CatPic.CatHandler.Unlink` | catpic.py:41-42 | the directory afterwards is the old directory without exactly the listed names |
| `CatPic.CatHandler.Rotate` | catpic.py:39-51 | the new directory, compressed path, latest frame, broadcast log and compression log are those of `Rotation.Rotate` applied to the old ones |
| `CatPic.CatHandler.Refresh` | catpic.py:43-51 | compresses the kept file only when its path differs from the one compressed last, then sets `latest` to its bytes and appends one payload of them |
| `CatPic.CatHandler.Supervise` | catpic.py:34-37 | running the watchdog checks of successive loop iterations with a handle held never fails, keeps the handle, and leaves `proctime` equal to `Schedule.StartedAt` of the first start time and the check times; the restart log grows by exactly `Schedule.Restarts` of them; the directory is emptied when there was any restart and untouched otherwise |
| `CatPic.CatHandler.Tick` | catpic.py:34-53 | one loop iteration: with a handle held it never fails and keeps the handle; it either restarts (directory emptied, nothing else of the frame state changed) or rotates as `Rotation.Rotate`; it returns the sleep time of the spent work; without a handle and a due restart it fails with "No proc to kill" and changes nothing; the restart log grows by `now` exactly when the process was restarted |
| `CatPic.Root.constructor` | catpic.py:76-77 | the latest frame is absent until the first tick that finds a file |
| `FrameNames.Less` | catpic.py:39 | Python's `<` on `str` (code-point lexicographic, a proper prefix first); no name is below itself |
| `FrameNames.LessAsymmetric` | catpic.py:39 | the name order never ranks two names each below the other |
| `FrameNames.LessTransitive` | catpic.py:39 | the name order is transitive |
| `FrameNames.LessTotal` | catpic.py:39 | any two distinct names are ordered one way or the other |
| `FrameNames.Sort` | catpic.py:39 | `sorted` returns a permutation of its input (same multiset) |
| `FrameNames.InsertSorted` | catpic.py:39 | inserting a name into an ascending list keeps it ascending |
| `FrameNames.SortSorted` | catpic.py:39 | `sorted` returns its names in ascending order |
| `FrameNames.NewestExists` | catpic.py:40-43 | every non-empty directory has a name above all its other names |
| `FrameNames.NewestUnique` | catpic.py:43 | that newest name is unique |
| `FrameNames.Newest` | catpic.py:43 | the chosen name is in the directory and every other name sorts below it |
| `FrameNames.LastIsNewest` | catpic.py:39-43 | the last name of the sorted listing is the newest, and the names before it are exactly the other files of the directory |
| `Rotation.PathOf` | catpic.py:43 | the path is the directory name, a '/', then the file name, which can be read back from the path |
| `Rotation.Payload` | catpic.py:50-51 | the broadcast text is `data:image/jpeg;base64,` followed by exactly 4 * ceil(n / 3) more characters for n bytes |
| `Rotation.Refresh` | catpic.py:43-51 | the second half of a tick keeps the directory's names and the other files' bytes; the kept file holds the compression of its bytes exactly when its path differs from the one compressed last, and then that path is appended to the compression log; its path becomes the compressed one; `latest` is its new bytes and the broadcast log is the old one followed by exactly `Payload` of them |
| `Rotation.Rotate` | catpic.py:39-51 | a tick leaves at most one file, one of those it found, and none only when it found none; it broadcasts once exactly when a file is left |
| `Rotation.PathOfInjective` | catpic.py:43-44 | two files have the same path exactly when they have the same name, so the path guard compares files |
| `Rotation.PayloadDecodes` | catpic.py:50-51 | the broadcast starts with `data:image/jpeg;base64,`, the rest decodes to the frame's bytes, and different frames give different payloads |
| `Rotation.RotateEmpty` | catpic.py:39-40 | a tick on an empty directory changes nothing: no deletion, no compression, the same `compressed` and `latest`, no broadcast |
| `Rotation.RotateKeepsNewest` | catpic.py:39-43 | a tick on a non-empty directory leaves exactly one file, the one whose name is above every other name present at the start; it holds the compression of its old bytes when its path differs from the one compressed last, and its old bytes otherwise |
| `Rotation.RotateCompressesOnChange` | catpic.py:43-47 | the compressor runs on the newest path exactly when it differs from `compressed`, and afterwards `compressed` is that path |
| `Rotation.RotatePublishesLatest` | catpic.py:48-51 | after a non-empty tick `latest` is the kept file's bytes, and exactly one broadcast was appended: "data:image/jpeg;base64," followed by the Base64 encoding of `latest`, whose text after the prefix decodes back to `latest` |
| `Rotation.RotateTwiceCompressesOnce` | catpic.py:43-51 | a second tick with no new file leaves the directory, `compressed`, `latest` and the compression log as they were, so two ticks compress at most once; it broadcasts the same payload again |
| `Rotation.ThreeFrames` | catpic.py:39-51 | with files f1, f2, f3: the first tick deletes f1 and f2, compresses f3 and broadcasts it once; the second tick changes nothing but broadcasts f3 again |
| `Base64.CharOf` | catpic.py:51 | every value below 64 maps to a character of the alphabet of RFC 4648 |
| `Base64.IndexOf` | catpic.py:51 | the value of an alphabet character maps back to that character |
| `Base64.EncodeQuantum` | catpic.py:51 | a group of one to three bytes becomes four characters, with '=' padding exactly where bytes are missing |
| `Base64.Encode` | catpic.py:51 | the encoding of n bytes has 4 * ceil(n / 3) characters, all from the alphabet except up to two final '=' |
| `Base64.TestVectors` | catpic.py:51 | the encodings of "", "f", "fo", "foo", "foob", "fooba" and "foobar" are those listed in section 10 of RFC 4648 |
| `Base64.JoinSplit` | catpic.py:51 | cutting one to three bytes into 6-bit groups leaves zero pad bits, and regrouping the groups gives the bytes back |
| `Base64.SplitJoin` | catpic.py:51 | regrouping 6-bit groups with zero pad bits into bytes and cutting them again gives the groups back |
| `Base64.QuantumRoundTrip` | catpic.py:51 | decoding an encoded group gives its bytes back |
| `Base64.QuantumCanonical` | catpic.py:51 | every group the decoder accepts is the encoding of what it decodes to |
| `Base64.DecodeEncode` | catpic.py:51 | decoding the encoding of any bytes gives those bytes back |
| `Base64.EncodeDecode` | catpic.py:51 | every text the decoder accepts is the encoding of its result, so encoding is a bijection onto the accepted texts |
| `Schedule.SleepMillis` | catpic.py:52-53 | the sleep is never below 200 ms, is at least 2000 ms minus the time spent, and is one of the two |
| `Schedule.Restarts` | catpic.py:35-37 | there are no more restarts than checks, each at a check's clock reading |
| `Schedule.RestartDue` | catpic.py:35 | the watchdog's strict test, more than 15 minutes elapsed since the start (in milliseconds); its contract adds only the sanity fact that a due restart lies after the start time |
| `Schedule.StartedAt` | catpic.py:35-37 | after a run of checks the process was started either at its first start or at one of the checks, more than 15 minutes after the first start |
| `Schedule.RestartsNext` | catpic.py:35-37 | one more watchdog check adds its clock reading to the restarts exactly when a restart is due at the start time reached so far, and adds nothing otherwise |
| `Schedule.RestartsSpaced` | catpic.py:35-37 | the first restart comes more than 15 minutes after the first start, and each later restart more than 15 minutes after the one before: never while the process is younger |
| `Schedule.StartedAtLastRestart` | catpic.py:35-37 | the running process was started at the last restart, or at the first start when there was none |
| `Schedule.StartedAtNext` | catpic.py:35-37 | one more watchdog check moves the start time to the check's clock reading exactly when a restart is due, and leaves it otherwise |
| `Schedule.AgeBounded` | catpic.py:35-37 | right after any watchdog check the running process is at most 15 minutes old |

## Left out

- The web layer (`Root.index`, `Root.latest_jpg`, `Root.ws`, `main`) and the cherrypy and ws4py configuration. Of `Root`, only its `latest` slot is modelled.
- The capture program itself: its launch arguments, its pipes and its working directory, and the kill and wait calls. A held process handle is a boolean. No operation models the program writing a new file; a tick's directory is whatever the worker finds.
- The compressor's arguments and its failure (`check_call` raising). `convert` is a total function on bytes that always succeeds.
- File-system failures: a missing directory, an unlink or read that fails, or a file that vanishes or grows during a tick. Concurrent writes by the capture program during a tick are not modelled either.
- The thread and the endless loop. `Tick` is one iteration. The constructor stands for `__init__` followed by the first two statements of `run`.
- The wall clock and `sleep`, which use floating-point seconds. Times are integer milliseconds passed as parameters, and `Tick` returns the sleep duration instead of sleeping. `startproc` reads the clock again after launching; the model records the watchdog's reading `now` as the new start time.
- The websocket transport. A broadcast is appended to a ghost log of payloads; subscribers, delivery and failures are not modelled.
- `os.path.join` is modelled as "images/" + name for plain file names; names containing a separator or absolute paths are not considered.
- `compressed` is not reset when the capture program restarts, in the code as in the model. A restarted program that reused the last compressed name would therefore have that file left uncompressed. File names are capture timestamps, so this is not expected to happen.
