# Plasma core, modelled in Dafny

Plasma is a desktop companion for iOS development. It finds an Xcode (or
Gradle) project on disk, builds it for the iOS Simulator, boots a
simulator, installs and launches the app, and mirrors the simulator's screen
into its own window. It also keeps a small SQLite store of settings and
recently opened projects.

This project models the sequential decision and parsing code behind those
features as pure Dafny functions over immutable data, and proves what each
piece promises. It covers:

- **Frame capture** (`Fbsimctl`, `CgImage`, `Mjpeg`, `SimServer`, `Channel`,
  `Capture`). This includes:
  - the fbsimctl startup banner parser and its geometry check;
  - the raw BGRA frame slicer and row de-strider;
  - the CoreGraphics window-image converter;
  - the line-driven MJPEG multipart reader and its retry loop;
  - the sim-server start-up handshake;
  - the capacity-1 frame hand-off;
  - the capture-mode flag and its labels;
  - the order in which `capture_frames` falls back from one path to the next.
- **The stream proxy** (`StreamProxy`). This includes:
  - fps and quality defaulting and clamping;
  - the choice of streamer binary;
  - the HTTP-preamble skipper;
  - the log subscriber's handling of a lagged receiver;
  - simulator-list filtering and ordering;
  - the boot → install → launch sequence.
- **The session manager and frame counter** (`Session`).
- **Project and Xcode path logic** (`ProjectEntity`, `ProjectService`,
  `Schemes`, `XcodeCrate`, `BuildSettings`, `XcodeBuild`). This includes:
  - project detection with workspace priority;
  - build-settings parsing;
  - product classification;
  - default-simulator choice;
  - the boot decision;
  - the shape of a build's result and event stream.
- **The repositories** (`SettingsRepo`, `ProjectsRepo`, and `ProjectsTable`
  beneath both). These are SQL upsert, select and delete over maps and row
  sequences.

The outside world enters as parameters:

- A started process is a `Process.Outcome`: either it could not start, with
  its error, or it ran, with its exit status, stdout and stderr.
- The filesystem is a `Paths.Fs`: a map from each existing file, named by
  its absolute flag and components, to whether it is a directory and, for a
  directory, its entries in listing order or a failed listing. Path text is
  kept as given, as Rust's `Path` keeps it; only lookups go through the
  components, so "/a/b", "/a//b" and "/a/b/" name the same file.
- Environment variables are `Option<string>`.
- JSON and JPEG decoding are function parameters.
- SQL `CURRENT_TIMESTAMP` is a logical clock value `now`.
- A frame receiver's lifetime is counted in frames: a `budget` of sends after
  which the receiver is dropped, or `None` while the window stays open.
- The commands a function would run are recorded in its result, so contracts
  can say what is run, in which order, and what is not run.

Helper modules carry the standard-library behaviour that the code relies on:

- `Text`: Rust's `trim`, `lines`, `split`, `starts_with`, `parse::<usize>`
  and so on, on `seq<char>`;
- `Utf8`: UTF-8 encoding and lossless decoding;
- `LineIo`: `BufRead::read_line`;
- `Paths`: `Path` text, joining, components, file names, extensions, stems and parents;
- `SqlLike`: SQLite `LIKE` with `%` and `_` and ASCII case-insensitivity;
- `Sorting`: insertion sorting by a total preorder, proved stable;
- `Raster`: row de-striding and the red/blue channel swap.

## Model

| member | source | states |
|---|---|---|
| Fbsimctl.Assign | app/crates/app/src/main.rs:484-490 | only `width`, `height`, `row_size` and `frame_size` are recorded; an unknown key leaves the fields unchanged, and a later value for a key replaces an earlier one |
| Fbsimctl.ApplyPartOutcomes | app/crates/app/src/main.rs:475-483 | a blank `;` segment is skipped; a non-blank segment without `=` rejects the whole banner |
| Fbsimctl.Assemble | app/crates/app/src/main.rs:493-503 | attributes exist exactly when both width and height were given; a missing `row_size` defaults to `4*width` and a missing `frame_size` to the saturating product `row_size*height` |
| Fbsimctl.ParseAttributesLine | app/crates/app/src/main.rs:464-471 | a line without the "Mounting Surface with Attributes:" marker yields no attributes |
| Fbsimctl.BannerRoundTrip | app/crates/app/src/main.rs:464-504 | a banner printed from any width, height and optional row/frame sizes parses back to those values, with the documented defaults filled in |
| Fbsimctl.ScanFindsBanner | app/crates/app/src/main.rs:615-667 | when fbsimctl's stderr begins with the banner line, the stderr scan yields that banner's attributes |
| Fbsimctl.ScanSkipsLine | app/crates/app/src/main.rs:615-667 | a stderr line without the marker is skipped, and scanning continues with the next line |
| Fbsimctl.ScanWithoutMarker | app/crates/app/src/main.rs:615-667 | stderr that ends before any line carries the marker yields no attributes |
| Fbsimctl.RowsFit | app/crates/app/src/main.rs:679-697 | under the corrected geometry check, every row slice `[y*row_size, y*row_size+4*width)` with `y < height` lies inside one frame |
| Fbsimctl.GeometryCorrection | app/crates/app/src/main.rs:679-697 | when nothing saturates, the corrected check is the code's check plus `frame_size > 0` |
| Fbsimctl.ZeroFrameAccepted | app/crates/app/src/main.rs:679-697 | the banner for a 390×0 surface parses to `frame_size` 0, which the code's check accepts and the corrected check rejects |
| Fbsimctl.SaturationAdmitsOverrun | app/crates/app/src/main.rs:679-697 | a geometry whose `row_size*height` saturates to exactly `frame_size` passes the code's check, yet its last row ends beyond the frame |
| Fbsimctl.FramesTakenAsWritten | app/crates/app/src/main.rs:523-546 | the slicing loop as written takes at most as many frames as it is given iterations |
| Fbsimctl.ZeroFrameNeverStops | app/crates/app/src/main.rs:523-546 | with `frame_size` 0 the slicing loop takes a frame on every iteration, so no iteration bound is ever enough |
| Fbsimctl.Slice | app/crates/app/src/main.rs:523-551 | slicing a stash splits it into whole `frame_size` frames followed by a remainder shorter than `frame_size`, and nothing is lost |
| Fbsimctl.LoopTakesSlicedFrames | app/crates/app/src/main.rs:523-546 | with a positive `frame_size`, the loop as written takes exactly the frames `Slice` cuts |
| Fbsimctl.SliceOfFrames | app/crates/app/src/main.rs:523-551 | slicing whole frames followed by a short tail gives back those frames and that tail |
| Fbsimctl.SliceAppend | app/crates/app/src/main.rs:523-551 | slicing the stash and then the new bytes gives the same frames as slicing them together |
| Fbsimctl.FrameImage | app/crates/app/src/main.rs:524-535 | for a geometry the slicing loop can use (rows long enough, every row inside the frame by the exact product, a frame of at least one byte): a frame becomes an image exactly when its byte count fits; the image has the banner's width and height cast to `u32`, and row `y` is the frame's bytes `[y*row_size, y*row_size+4*width)` with no channel swap |
| Fbsimctl.Images | app/crates/app/src/main.rs:533-543 | for such a geometry, no more images are made than frames were cut |
| Fbsimctl.ReadStream | app/crates/app/src/main.rs:506-553 | for such a geometry, a reader whose receiver lives for `n` more frames offers at most `n` images |
| Fbsimctl.StreamIgnoresChunking | app/crates/app/src/main.rs:506-553 | the images offered depend only on the concatenation of the bytes read, not on how the reads were chunked |
| Fbsimctl.FbsimctlFps | app/crates/app/src/main.rs:566-569 | fps is 30 unless `PLASMA_FBSIMCTL_FPS` parses as a `u32`, in which case it is that value |
| Fbsimctl.FpsFromEnv | app/crates/app/src/main.rs:566-569 | any `u32` written in decimal into the variable is the fps used |
| Fbsimctl.FbsimctlArgs | app/crates/app/src/main.rs:571-582 | the arguments end in `udid stream --bgra --fps <fps> -`, preceded by `--debug-logging` exactly when the debug variable is "1" |
| Fbsimctl.CaptureWithFbsimctl | app/crates/app/src/main.rs:555-709 | the fbsimctl mode is stored exactly when the binary is found, the process spawns, a banner is read and its geometry passes the check as written; otherwise nothing is offered; only a `frame_size` of 0 with a receiver that never goes makes the attempt spin; every frame offered is charged to the receiver's lifetime |
| Fbsimctl.AcceptedGeometries | app/crates/app/src/main.rs:679-697 | a geometry that passes the check as written is usable by the slicing loop, has a `frame_size` of 0, or has a saturated product with `frame_size` `usize::MAX` |
| Fbsimctl.EmptyFrameImage | app/crates/app/src/main.rs:524-535 | with `frame_size` 0 the check forces a width or height of 0, and each turn makes an image of the banner's size with no pixels |
| Fbsimctl.ZeroFrameRun | app/crates/app/src/main.rs:515-546 | with `frame_size` 0 nothing is offered unless the first read brings bytes; then the empty image is offered on every turn, forever while the receiver stays, and as many times as the receiver takes before it goes |
| Fbsimctl.ZeroFrameSpins | app/crates/app/src/main.rs:515-546 | the 390 by 0 banner stores mode 4 and then offers empty 390 by 0 images without end, or once per send the receiver takes |
| Fbsimctl.CaptureOffersWholeFrames | app/crates/app/src/main.rs:555-709 | once the mode is stored for a geometry the slicing loop can use, the attempt does not spin and the frames offered are the images of the whole frames in the stream, cut off where the receiver goes away |
| CgImage.ToRgbaAsWritten | app/crates/app/src/main.rs:326-365 | the code as written, on the size cast to `u32`: nothing when a size is zero, the format is not 32 bits per pixel with 8 per component, or the data is shorter than `bytes_per_row*height`; a panic when `width*height*4` overflows `u32` or the last row's pixels end past the data; otherwise the rows gathered at the same size |
| CgImage.ToRgbaChecked | app/crates/app/src/main.rs:326-365 | an image is converted exactly when the code's guards pass and its rows hold their pixels inside the data at a `u32` size; the result is `width*height*4` bytes at the same size |
| CgImage.CheckedAgrees | app/crates/app/src/main.rs:326-365 | every image the code panics on is refused by the checked conversion, and where the code neither panics nor narrows the size and rows hold their pixels, both give the same image |
| CgImage.RowsRecovered | app/crates/app/src/main.rs:346-362 | each output row is the input row with its stride padding dropped, and each pixel's bytes 0 and 2 are swapped while bytes 1 and 3 are kept |
| CgImage.PaddingIgnored | app/crates/app/src/main.rs:346-362 | two images that agree on every pixel row convert to the same RGBA, whatever their padding bytes hold |
| CgImage.GuardsAdmitShortRows | app/crates/app/src/main.rs:326-362 | a 2 by 1 image with 4 bytes per row and 4 bytes of data passes every guard the code makes, and the copy loop then reads past the data and panics; the checked conversion refuses it |
| CgImage.ShortRowsOverlap | app/crates/app/src/main.rs:326-362 | a 2 by 2 image with 4 bytes per row and 12 bytes of data passes every guard and does not panic: the code converts it, and its two rows share a pixel; the checked conversion refuses it |
| CgImage.NarrowedWidthConverted | app/crates/app/src/main.rs:326-346 | an image `u32::MAX + 2` pixels wide is narrowed by `as u32` to width 1 and converted as a 1 by 1 image; the checked conversion refuses it |
| CgImage.U32ProductOverflows | app/crates/app/src/main.rs:326-346 | a 32768 by 32768 image passes every guard, and the `u32` product `width*height*4` overflows, so the code panics; the checked conversion refuses it |
| Channel.TrySend | app/crates/app/src/main.rs:538-542 | a send fails as disconnected exactly when the receiver is gone, and as full exactly when a frame is already waiting; only a successful send changes the slot |
| Channel.SendAll | app/crates/app/src/main.rs:538-542 | a run of sends never revives or drops the receiver |
| Channel.OldestFrameWins | app/crates/app/src/main.rs:538-542 | into an empty slot, the first of several frames is kept and every later one is dropped as full |
| Channel.FullDropsAll | app/crates/app/src/main.rs:538-542 | every send into a full slot whose receiver lives reports "full" and leaves the slot, and the frame waiting in it, unchanged |
| Channel.SendThenReceive | app/crates/app/src/main.rs:208-211 | a frame sent into an empty slot is the one the UI's next receive takes, and the receive restores the slot to its state before the send |
| Channel.ReceiveMakesRoom | app/crates/app/src/main.rs:208-211 | after the UI takes the waiting frame, the producer's next send goes through |
| Channel.LatestOf | app/crates/app/src/main.rs:208-211 | of the frames drained in one tick, only the last is kept, and none when nothing was drained |
| Channel.LatestOfAppend | app/crates/app/src/main.rs:208-211 | draining in two batches keeps the same frame as draining once, unless the second batch is empty |
| Channel.Cut | app/crates/app/src/main.rs:538-542 | a producer whose receiver lives for `n` more frames gets at most the first `n` frames across |
| Channel.CutAppend | app/crates/app/src/main.rs:538-542 | cutting two runs of frames in sequence is cutting their concatenation |
| Capture.ModeLabel | app/crates/app/src/main.rs:222-233 | modes 1 to 4 have their own labels, and every other value reads "Streaming: starting..." |
| Capture.LabelsDistinct | app/crates/app/src/main.rs:222-233 | no two of the five modes 0 to 4 share a label |
| Capture.InitialView | app/crates/app/src/main.rs:193-203 | the window starts with no frame and a mode in step with the flag |
| Capture.Tick | app/crates/app/src/main.rs:204-238 | a tick that drains nothing changes nothing; otherwise it shows the last frame drained and the flag's current mode |
| Capture.TicksShowLastFed | app/crates/app/src/main.rs:204-238 | after any run of ticks, the window shows the last frame of the last tick that drained any |
| Capture.TicksInSync | app/crates/app/src/main.rs:204-238 | ticks keep the shown frame and the recorded mode in step |
| Capture.StepFrame | app/crates/app/src/main.rs:979-1024 | a window capture yields a window-mode frame only when a grab converts, and a screenshot yields a screenshot-mode frame only when it is non-empty and decodes |
| Capture.AllProduced | app/crates/app/src/main.rs:970-1027 | the fallback loop produces at most one frame per step, each tagged window or screenshot |
| Capture.FallbackLoop | app/crates/app/src/main.rs:970-1027 | the loop returns exactly when the receiver goes away; until then it offers every frame it produces |
| Capture.NeverReturnsWhileWatched | app/crates/app/src/main.rs:970-1027 | while the receiver stays alive, the loop never returns and offers every frame it produces |
| Capture.CaptureFrames | app/crates/app/src/main.rs:942-1028 | the flag is stored by fbsimctl, then sim-server, then the loop, in that order; no more frames are offered than the receiver accepts; the whole capture returns only when the receiver is gone; when the fbsimctl attempt spins, the flag holds fbsimctl's value alone and the capture never returns |
| Capture.WithoutHelpers | app/crates/app/src/main.rs:942-1028 | with neither helper binary found, capture is exactly the fallback loop |
| Capture.FlagNamesLastPath | app/crates/app/src/main.rs:193-193 | after a capture run the flag still reads 0 only when no path got going; it reads fbsimctl's value when that attempt spins or nothing after it got going, sim-server's when it got going and the loop produced no frame, and otherwise the kind of the last frame the loop produced |
| Mjpeg.ContentLength | app/crates/app/src/main.rs:756-761 | a length is read only from a line whose lower-cased form starts with "content-length:", and it fits a `usize` |
| Mjpeg.Classify | app/crates/app/src/main.rs:726-761 | a line starting with "--" clears the pending length; a parsable `content-length:` line sets it; a blank line reads a body only when a length is pending; anything else is ignored |
| Mjpeg.NextPending | app/crates/app/src/main.rs:726-761 | an ignored line keeps the pending length; a length line replaces it; a boundary or a body read clears it |
| Mjpeg.Skip | app/crates/app/src/main.rs:739-740 | skipping `n` bytes drops exactly `n`, or everything when fewer remain |
| Mjpeg.ReadParts | app/crates/app/src/main.rs:711-763 | the reader offers no more frames than the receiver accepts, and nothing from an empty stream |
| Mjpeg.ReadsWellFormedStream | app/crates/app/src/main.rs:711-763 | reading a stream of well-formed parts offers the decodable bodies, in order, cut off where the receiver goes away; undecodable bodies are skipped |
| Mjpeg.ReadsBody | app/crates/app/src/main.rs:732-753 | a blank line with length `n` pending consumes exactly `n` body bytes plus two more, and then clears the length |
| Mjpeg.ShortBodyEnds | app/crates/app/src/main.rs:733-737 | a body shorter than the pending length ends the stream with nothing more offered |
| Mjpeg.LengthLineClassified | app/crates/app/src/main.rs:756-761 | a "Content-Length: n" line sets the pending length to `n` |
| Mjpeg.Retries | app/crates/app/src/main.rs:765-798 | the retry loop always makes all 10 attempts, and every frame offered is charged to the receiver's lifetime |
| Mjpeg.StreamWithRetries | app/crates/app/src/main.rs:765-798 | streaming with retries gives up after 10 attempts and never reports success |
| Mjpeg.AllRefused | app/crates/app/src/main.rs:765-798 | when every connection is refused, 10 attempts are made and nothing is offered |
| SimServer.SimServerArgs | app/crates/app/src/main.rs:811-818 | the arguments are `ios --id <udid>`, followed by `--device-set <dir>` exactly when a non-empty device set is configured |
| SimServer.TokenLine | app/crates/app/src/main.rs:819-827 | a `token <t>` line is written exactly when a non-empty token is configured |
| SimServer.StreamReadyUrl | app/crates/app/src/main.rs:889-917 | a URL taken from the `stream_ready` line starts with "http://" and holds no whitespace |
| SimServer.ReadyLineGivesUrl | app/crates/app/src/main.rs:889-917 | when stdout begins with `stream_ready <url>`, that URL is the one streamed from |
| SimServer.CaptureWithSimServer | app/crates/app/src/main.rs:800-940 | the sim-server mode is stored exactly when the binary is found, the process spawns and a stream-ready URL is read, and that URL is the one used; otherwise nothing is offered |
| Session.New | app/crates/simulator/src/lib.rs:68-73 | a new manager has no session and no stream URL |
| Session.StopSession | app/crates/simulator/src/lib.rs:102-109 | stopping always forgets the server process; it fails only when killing or reaping the process fails, and then the session is kept |
| Session.StopIdempotent | app/crates/simulator/src/lib.rs:102-109 | stopping twice is the same as stopping once, and the second stop succeeds |
| Session.StartSession | app/crates/simulator/src/lib.rs:76-99 | starting first stops any prior session, fails exactly when that stop fails, and otherwise holds exactly the given udid, path, width and height, with the returned stream URL |
| Session.StreamUrl | app/crates/simulator/src/lib.rs:117-121 | the stream URL is the current session's, and absent without a session |
| Session.StartThenUrl | app/crates/simulator/src/lib.rs:76-121 | after a successful start, the stream URL is the one `start_session` returned |
| Session.Apply | app/crates/simulator/src/lib.rs:124-138 | touches and button presses succeed and change nothing |
| Session.NothingFails | app/crates/simulator/src/lib.rs:66-138 | with no server process, every operation in any sequence succeeds, and a session is held exactly when the last start or stop was a start |
| Session.NewDecoder | app/crates/simulator/src/lib.rs:179-181 | the frame counter starts at 0 |
| Session.Decode | app/crates/simulator/src/lib.rs:184-211 | a failed decode is an error and leaves the counter alone; a successful one advances it by one |
| Session.FramesNumberedInOrder | app/crates/simulator/src/lib.rs:184-197 | decoded frames are numbered consecutively from the counter's value, and the counter ends at the number of frames decoded |
| StreamProxy.StreamFps | app/src/simulator/mod.rs:55-62 | fps is the query value, else the parsed `PLASMA_STREAM_FPS`, else 30, and is never above 60 |
| StreamProxy.QueryFpsWins | app/src/simulator/mod.rs:55-62 | a query fps is used as given up to 60 and capped at 60 beyond |
| StreamProxy.StreamQuality | app/src/simulator/mod.rs:64-71 | quality is the query value, else the environment value, else 0.6, clamped into [0.1, 1.0] |
| StreamProxy.AxeQuality | app/src/simulator/mod.rs:95-95 | the axe quality argument lies between 10 and 80, and below 80 it is the quality times 100 rounded down |
| StreamProxy.ChooseStreamer | app/src/simulator/mod.rs:47-53 | plasma-stream is used whenever it is found, and axe only when plasma-stream is absent; with neither there is no streamer |
| StreamProxy.StreamerArgs | app/src/simulator/mod.rs:86-103 | each streamer gets its udid, fps and quality arguments in its own format, and axe's quality is the capped integer |
| StreamProxy.SkipPreamble | app/src/simulator/mod.rs:158-201 | without an "HTTP/1.1" line nothing is forwarded; with one, what is forwarded is strictly shorter than the output; either way it is an unchanged suffix of the streamer's output |
| StreamProxy.SkipHeaders | app/src/simulator/mod.rs:207-228 | what remains after the headers is an unchanged suffix of the input |
| StreamProxy.PreambleSkipped | app/src/simulator/mod.rs:158-228 | lines before the status line, the status line and the headers up to the blank line are dropped, and the body is forwarded byte for byte |
| StreamProxy.NoStatusNothingForwarded | app/src/simulator/mod.rs:158-201 | output that ends before any "HTTP/1.1" line forwards nothing |
| StreamProxy.StreamSimulator | app/src/simulator/mod.rs:43-241 | the handler answers 500 when no streamer is found or the spawn fails, and otherwise streams exactly the bytes after the preamble, from the chosen streamer |
| StreamProxy.LogStream | app/src/simulator/mod.rs:244-269 | the log stream yields at most one event per message received |
| StreamProxy.LogStreamUntilClosed | app/src/simulator/mod.rs:249-264 | the stream yields one event per message up to the first `Closed`; each line becomes an event, and each `Lagged(n)` becomes a debug event reporting `n` skipped |
| StreamProxy.CollectDevices | app/src/simulator/mod.rs:393-412 | exactly the devices with a non-empty udid and a state other than "Unavailable" are kept, each labelled with its runtime |
| StreamProxy.Collect | app/src/simulator/mod.rs:393-412 | every simulator collected has a non-empty udid and is available |
| StreamProxy.ListSimulators | app/src/simulator/mod.rs:374-426 | the listing is a permutation of the kept devices, with booted devices before the rest and names in order within each group |
| StreamProxy.ListSimulatorsStable | app/src/simulator/mod.rs:415-426 | simulators with the same boot state and name keep the order in which they were collected, as `sort_by` is stable |
| Sorting.SortByStable | app/src/simulator/mod.rs:415-426 | sorting keeps the elements that tie with any given element in their original order |
| StreamProxy.ListedIffKept | app/src/simulator/mod.rs:374-426 | a simulator is listed exactly when its device was kept |
| StreamProxy.ExtractBundleId | app/src/simulator/mod.rs:526-543 | the bundle id is PlistBuddy's trimmed output when it succeeds, and an error prefixed "Failed to read bundle ID: " otherwise |
| StreamProxy.InstallAndLaunch | app/src/simulator/mod.rs:466-524 | boot runs first and install second; a failed install returns before launch; launch uses the supplied bundle id, else the extracted one; success means install and launch both succeeded |
| StreamProxy.BootFailureIgnored | app/src/simulator/mod.rs:480-490 | a boot that runs but fails changes nothing about the result |
| ProjectEntity.FromPath | app/src/db/entity/projects.rs:15-25 | a path is Xcode exactly when its file name ends in ".xcworkspace" or ".xcodeproj", Android exactly when it is "build.gradle" or "build.gradle.kts", and neither otherwise or without a file name |
| ProjectEntity.TypeText | app/src/db/entity/projects.rs:6-11 | a project type is stored as "xcode" or "android" |
| ProjectEntity.GradleIsNotXcode | app/src/db/entity/projects.rs:18-21 | the two project kinds never both match one file name |
| ProjectService.IsProjectPath | app/src/services/projects.rs:32-42 | a path is a project path exactly when `from_path` gives it a project type |
| ProjectService.BundleName | app/src/services/projects.rs:49-61 | the name is the file name with every trailing copy of the suffix stripped |
| ProjectService.BundleNameIsStem | app/src/services/projects.rs:49-61 | a bundle named `<stem><suffix>` is named `<stem>` |
| ProjectService.GradleName | app/src/services/projects.rs:72-76 | a Gradle project takes its directory's name, or "Unknown" when there is none |
| ProjectService.DetectFromProjectPath | app/src/services/projects.rs:45-86 | direct detection succeeds exactly for project paths, keeps the path's text as given, records whether it exists, types the project as `from_path` does, names an Xcode project after its file name without the bundle suffix and a Gradle project after its parent directory |
| ProjectService.TextKeptAsGiven | app/src/services/projects.rs:45-86 | a project path with and without a trailing '/' gives the same name, type and validity, but keeps two different path texts |
| ProjectService.EntryProject | app/src/services/projects.rs:97-137 | a directory entry becomes a project at the directory's text joined with the entry name, typed Xcode for a workspace or project bundle and Android otherwise; an Xcode project is named after the entry without its bundle suffix, and a Gradle project after the directory |
| ProjectService.ScanFor | app/src/services/projects.rs:93-139 | the scan finds the first entry in listing order that is wanted, and nothing exactly when no entry is |
| ProjectService.ScanForFindsFirst | app/src/services/projects.rs:93-139 | the scan agrees with the independent first-index search: it reports the entry at the first accepted index, or nothing when there is none |
| ProjectService.DetectFromDirectory | app/src/services/projects.rs:89-142 | an unreadable directory yields nothing; otherwise the first workspace entry wins, and failing that the first project or Gradle entry in listing order |
| ProjectService.WorkspaceWins | app/src/services/projects.rs:89-142 | a directory with any workspace entry is detected as that workspace, whatever else it lists |
| ProjectService.DetectProject | app/src/services/projects.rs:19-29 | project paths are detected directly, directories by search, and anything else yields nothing |
| ProjectService.SaveProjectAsWritten | app/src/services/projects.rs:145-180 | saving a new path fails on the NOT NULL `project_type` column; saving a known path updates its row in place |
| ProjectService.NewProjectNeverListed | app/src/services/projects.rs:168-175 | saving to an empty store fails, so the recent list stays empty |
| ProjectService.SaveProject | app/src/services/projects.rs:145-180 | after a save, the path has exactly one row; a known path keeps its key and `created_at` and gets the new name and `last_opened_at`; a new path gets a new row stamped `now` twice; other rows are kept |
| ProjectService.SavedProjectComesFirst | app/src/services/projects.rs:145-214 | a project just saved at a time later than every other row heads the recent list |
| ProjectService.QueryRows | app/src/services/projects.rs:188-194 | the rows kept are exactly the stored rows whose path contains the query (as a SQL `LIKE %query%`), or all rows when there is no query |
| ProjectService.RecentRows | app/src/services/projects.rs:188-196 | the newest `limit` matching rows (all when fewer match), newest `last_opened_at` first; every matching row left out is no newer than any row kept |
| ProjectService.Shown | app/src/services/projects.rs:198-211 | the projects shown are, position by position, the rows whose path names a project type, each with its row's path, name, type and whether the path exists; other rows are dropped |
| ProjectService.GetRecentProjects | app/src/services/projects.rs:183-214 | at most `limit` projects are returned, each from a row matching the query |
| ProjectService.RecentProjectsListing | app/src/services/projects.rs:183-214 | the list is the typed rows among the newest `limit` matching rows, shown in order and newest first; a matching typed row is missing only when `limit` rows at least as new fill the limit |
| ProjectService.RecentInOrder | app/src/services/projects.rs:196-211 | dropping rows from a newest-first listing keeps it newest first |
| ProjectsTable.Empty | app/src/db/migrations.rs:19-32 | a fresh table is valid and holds no rows |
| ProjectsTable.IndexOf | app/src/db/migrations.rs:23-23 | a path is found at the position of its row, and not found exactly when no row has it |
| ProjectsTable.Insert | app/src/db/migrations.rs:21-28 | inserting a new path appends its row under the next AUTOINCREMENT key and keeps paths and keys unique |
| ProjectsTable.Update | app/src/db/migrations.rs:21-28 | updating a row in place keeps its key, its path and every other row |
| ProjectsTable.Remove | app/src/db/migrations.rs:21-28 | removal reports whether the path had a row, and leaves every other row and the next key |
| ProjectsTable.Newest | app/src/db/projects.rs:47-58 | `ORDER BY last_opened_at DESC LIMIT n` returns `min(n, rows)` rows, newest first with NULL last, all taken from the table, a permutation of it without a limit, and no row left out is newer than a row kept |
| ProjectsTable.LeftOutOnlyAtLimit | app/src/db/projects.rs:47-58 | a row is left out only when there is a limit, it is reached and the table holds more rows |
| ProjectsTable.NewestFirst | app/src/db/projects.rs:47-58 | a row strictly newer than every other row comes first |
| SettingsRepo.Get | core/src/db/settings.rs:16-24 | a key reads as its stored value, and as absent exactly when it has no row |
| SettingsRepo.Set | core/src/db/settings.rs:27-43 | `set` stores the value under the key, stamps `updated_at` with now, keeps an existing `created_at`, and leaves every other key alone |
| SettingsRepo.Delete | core/src/db/settings.rs:46-53 | `delete` reports whether the key had a row, removes it, and leaves every other key alone |
| SettingsRepo.GetAfterSet | core/src/db/settings.rs:16-43 | a value set is the value read back |
| SettingsRepo.SetOverwrites | core/src/db/settings.rs:27-43 | a second `set` of the same key wins, and the row keeps its first `created_at` |
| SettingsRepo.GetAfterDelete | core/src/db/settings.rs:16-53 | a deleted key reads as absent |
| SettingsRepo.OtherKeysUnaffected | core/src/db/settings.rs:16-53 | setting or deleting one key does not change what another key reads |
| SettingsRepo.DeleteTwice | core/src/db/settings.rs:46-53 | a second delete of a key removes nothing and reports so |
| SettingsRepo.CrudSequence | core/src/db/settings.rs:63-87 | the set, get, overwrite, delete, get sequence of the repository's test gives the values the test expects |
| ProjectsRepo.Upsert | app/src/db/projects.rs:26-44 | a new path gets one new row; an existing path's row is updated in place with its key kept; either way there is one row per path |
| ProjectsRepo.Limit | app/src/db/projects.rs:47-56 | a negative SQL `LIMIT` means no limit |
| ProjectsRepo.ReadAll | app/src/db/projects.rs:60-69 | the rows read become projects one for one, and the read fails when a row has a NULL `last_opened_at` |
| ProjectsRepo.Selected | app/src/db/projects.rs:47-70 | the fetch fails only on an unreadable row; the projects are as many as the limit lets through, newest first, each read from a row, all readable rows without a limit, and no readable row left out is newer than one listed |
| ProjectsRepo.GetRecent | app/src/db/projects.rs:47-70 | `get_recent` succeeds on a stamped table and returns `min(limit, rows)` projects, newest first, each from a table row, every row when the limit is negative, and none left out newer than one returned |
| ProjectsRepo.Search | app/src/db/projects.rs:73-99 | `search` returns only projects whose path matches `LIKE '%q%'`; among the matching rows, as many as the limit lets through, newest first, all of them when the limit is negative, and none left out newer than one returned |
| ProjectsRepo.SearchFindsInserted | app/src/db/projects.rs:73-99 | in a table holding one project, a search for any wildcard-free prefix of its path returns exactly that project |
| ProjectsRepo.SearchFindsProject | app/src/db/projects.rs:73-99 | a stored project is found by a search for its path's prefix |
| ProjectsRepo.Delete | app/src/db/projects.rs:102-109 | `delete` reports whether the path had a row and removes exactly that row |
| ProjectsRepo.DeletedNotListed | app/src/db/projects.rs:47-109 | after a delete, `get_recent` no longer lists the path |
| ProjectsRepo.UpsertKeepsKey | app/src/db/projects.rs:31-35 | a second upsert of a path keeps the row's key and takes the new name and type |
| ProjectsRepo.CrudSequence | app/src/db/projects.rs:119-158 | the upsert, list, search and delete sequence of the repository's test gives the results the test expects |
| BuildSettings.BuildDirIn | app/src/xcode/build.rs:162-171 | the build directory is the rest of the first line whose trimmed form starts with "CONFIGURATION_BUILD_DIR = ", and absent exactly when no line does |
| BuildSettings.BuildDirInFound | app/crates/xcode/src/lib.rs:374-382 | a build directory is found exactly when some line carries the key, and then that line is the key followed by it |
| BuildSettings.SettingLineFound | app/src/xcode/build.rs:162-171 | in settings output whose earlier lines lack the key, an indented `CONFIGURATION_BUILD_DIR = <dir>` line yields `<dir>` |
| XcodeBuild.Classify | app/src/xcode/build.rs:195-215 | a name is an application exactly when it ends in ".app", and is skipped exactly when it has none of the seven product suffixes |
| XcodeBuild.ClassifiedBySuffix | app/src/xcode/build.rs:195-215 | each suffix maps to its product type, and ".xctest" is a UI test exactly when the lower-cased name contains "uitest" |
| XcodeBuild.ProductsOf | app/src/xcode/build.rs:195-215 | one product is made per recognised entry, in listing order, at the entry's path, launchable exactly when it is an application |
| XcodeBuild.FindBuildProducts | app/src/xcode/build.rs:173-226 | a missing build directory has no products; an unreadable one is an error; otherwise the products are those of its entries |
| XcodeBuild.GetLaunchableProducts | app/src/xcode/build.rs:229-235 | the launchable products are exactly the products marked launchable, in their order in the input and each as often as it occurs there |
| Seqs.KeptAt | app/src/xcode/build.rs:229-235 | the positions listed are, in increasing order, exactly those of the elements the filter keeps |
| Seqs.FilterAt | app/src/xcode/build.rs:229-235 | the filter is the subsequence at the kept positions: the kept elements in their order, each as often as it occurs |
| XcodeBuild.LaunchableAreApps | app/src/xcode/build.rs:195-235 | a launchable product is an ".app", and every ".app" entry yields a launchable product |
| XcodeBuild.LaunchableExamples | app/src/xcode/build.rs:418-457 | one of the three products in the module's test is launchable, and none of the single framework |
| XcodeBuild.XcodebuildArgs | app/src/xcode/build.rs:76-93 | the command names the project by `-workspace` exactly for a workspace, then the path and scheme, and ends in `-showBuildSettings` exactly for the settings query |
| XcodeBuild.RunXcodebuild | app/src/xcode/build.rs:95-158 | the settings query runs first; the build runs only when a build directory was found; a failed run gives `success = false` with no build directory and no products |
| XcodeBuild.BuildStep | app/src/xcode/build.rs:140-158 | a failed build gives `success = false` with nothing else; a successful one reports the build directory and its products |
| XcodeBuild.BuildDetected | app/src/xcode/build.rs:65-159 | no project is `ProjectNotFound`, a non-Xcode project is `NotXcodeProject` and runs nothing, and an Xcode project runs xcodebuild on its path |
| XcodeBuild.BuildScheme | app/src/xcode/build.rs:65-159 | `ProjectNotFound` exactly when detection fails; nothing runs for a non-Xcode project; xcodebuild gets the detected path, as a workspace exactly when it ends in ".xcworkspace" |
| XcodeBuild.DirectoryWorkspaceBuiltAsWorkspace | app/src/xcode/build.rs:72-80 | a directory holding a workspace is built with `-workspace` |
| XcodeBuild.OutputEvents | app/src/xcode/build.rs:356-383 | each line read becomes one output event, and only the last read can be an error |
| XcodeBuild.BuildSchemeStream | app/src/xcode/build.rs:266-411 | a path with no project is `ProjectNotFound`; a stream is opened only when the settings query ran and printed a build directory, and it is `Started` for the displayed path, then the output events of the lines read, then the final event for that build directory |
| XcodeBuild.StreamDetected | app/src/xcode/build.rs:266-411 | once a project is detected, a stream is opened only when the settings query printed a build directory; it begins with `Started`, never starts again, carries exactly the output events of the lines read, and ends with the final event for that build directory: `Completed` with the exit status when waiting succeeded or `Error` when it failed, with no products after a failed build |
| XcodeBuild.Events | app/src/xcode/build.rs:346-407 | the stream is `Started`, then exactly the output events of the lines read, then the final event |
| XcodeBuild.EveryLineStreamed | app/src/xcode/build.rs:356-383 | when every read yields a line, the stream has one `Output` per line, in the order read, between `Started` and the final event |
| XcodeBuild.ReadErrorEndsOutput | app/src/xcode/build.rs:356-383 | a read error ends the output: the lines before it, the error, then the final event, whatever the pipes would have delivered after |
| XcodeBuild.Finished | app/src/xcode/build.rs:384-406 | the final event is `Completed` exactly when waiting for the build succeeded, with its exit status and build directory, and lists products only after a successful build |
| Schemes.SearchDir | app/src/xcode/schemes.rs:95-100 | a directory is searched itself, and anything else through its parent |
| Schemes.SearchListing | app/src/xcode/schemes.rs:103-133 | the first workspace entry wins, then the first project entry; with neither the error names the directory; the result is in the directory with the matching extension |
| Schemes.FindProjectOrWorkspace | app/src/xcode/schemes.rs:80-134 | a missing path is an error; a workspace or project path is returned as is with its kind; otherwise the search directory is searched |
| Schemes.WorkspaceWins | app/src/xcode/schemes.rs:112-127 | any workspace entry makes the result a workspace, whatever the listing order |
| Schemes.ProjectOnlyWithoutWorkspace | app/src/xcode/schemes.rs:112-127 | a project is chosen only when the listing holds no workspace |
| Schemes.ListArgs | app/src/xcode/schemes.rs:36-56 | the listing command is `-workspace` or `-project` to match the kind, then the path, `-list` and `-json` |
| Schemes.DiscoverProject | app/src/xcode/schemes.rs:36-78 | discovery fails when the search fails; otherwise it runs the listing and takes the info block that matches the kind |
| Schemes.WorkspaceReadsWorkspaceSide | app/src/xcode/schemes.rs:65-69 | for a workspace only the listing's workspace block matters |
| Schemes.MissingPathReported | app/src/xcode/schemes.rs:81-83 | a missing path's error contains "does not exist" |
| Schemes.NothingToFind | app/src/xcode/schemes.rs:168-264 | an empty listing or one with only a README fails with "No .xcworkspace or .xcodeproj found" |
| Schemes.TestDirectoryYieldsWorkspace | app/src/xcode/schemes.rs:168-264 | the test directory with a project and a workspace, in either order, yields the workspace |
| Schemes.TestListingYieldsWorkspace | app/src/xcode/schemes.rs:168-264 | the test listing with a project and a workspace, in either order, yields the workspace |
| XcodeCrate.FindFileWithExtension | app/crates/xcode/src/lib.rs:188-198 | the first entry with the extension is found, in the directory, and nothing for an unreadable directory |
| XcodeCrate.Locate | app/crates/xcode/src/lib.rs:126-147 | a missing path is `ProjectNotFound`; a workspace or project path is taken as is; otherwise a workspace entry beats a project entry, and with neither the error is "No Xcode project found" |
| XcodeCrate.PlainFileNotSearched | app/crates/xcode/src/lib.rs:135-146 | a plain file that is no bundle is rejected without its parent being searched |
| XcodeCrate.CrateWorkspaceWins | app/crates/xcode/src/lib.rs:136-143 | a directory holding any workspace is located as a workspace |
| XcodeCrate.ListArgs | app/crates/xcode/src/lib.rs:150-155 | the listing command flags the kind, then the path, `-list` and `-json` |
| XcodeCrate.DiscoverProject | app/crates/xcode/src/lib.rs:125-186 | discovery fails as `Locate` does without running anything; otherwise it lists the project and takes the info block for its kind |
| XcodeCrate.BundleNamedByStem | app/crates/xcode/src/lib.rs:173-177 | a project discovered at `<stem>.<ext>` is named `<stem>` |
| XcodeCrate.IosSimulators | app/crates/xcode/src/lib.rs:216-231 | every simulator listed comes from a runtime whose key contains "iOS" |
| XcodeCrate.IosDevicesKept | app/crates/xcode/src/lib.rs:216-231 | every device under an iOS runtime is listed |
| XcodeCrate.ListedFromIosRuntime | app/crates/xcode/src/lib.rs:216-231 | every simulator listed is a device under an iOS runtime |
| XcodeCrate.ListSimulators | app/crates/xcode/src/lib.rs:201-234 | an unstarted or failed `simctl` and bad JSON are errors; otherwise the listing is the iOS simulators |
| XcodeCrate.PickByPrefix | app/crates/xcode/src/lib.rs:241-245 | the pick is the first simulator named by the earliest prefix that names any, and nothing when none does |
| XcodeCrate.FindDefaultSimulator | app/crates/xcode/src/lib.rs:237-252 | a listing error passes through; an empty listing is "No iOS simulators found"; otherwise the pick by prefix, else the first simulator |
| XcodeCrate.NewestIphonePreferred | app/crates/xcode/src/lib.rs:237-252 | the first "iPhone 16" simulator is chosen whenever there is one |
| XcodeCrate.NoIphoneTakesFirst | app/crates/xcode/src/lib.rs:237-252 | with no iPhone listed, the first simulator is chosen |
| XcodeCrate.BootSimulator | app/crates/xcode/src/lib.rs:255-277 | boot runs exactly when the simulator is not already booted; a failure is ignored only when stderr says "current state: Booted" |
| XcodeCrate.BootIdempotent | app/crates/xcode/src/lib.rs:268-276 | a boot failing because the device is already booted is reported as success |
| XcodeCrate.AppProducts | app/crates/xcode/src/lib.rs:393-404 | exactly the ".app" entries become products, each at its path in the build directory |
| XcodeCrate.FindBuildProducts | app/crates/xcode/src/lib.rs:384-407 | a missing build directory has no products, an unreadable one is an error, and otherwise its ".app" entries are the products |
| XcodeCrate.BuildArgs | app/crates/xcode/src/lib.rs:338-355 | the build command flags the kind and names the path, scheme, Debug configuration, simulator SDK and destination, with signing turned off |
| XcodeCrate.BuildScheme | app/crates/xcode/src/lib.rs:309-372 | the settings query runs first; the build runs only when a build directory was found; a missing directory or a failed build is `BuildFailed`; success reports the directory and its products |
| XcodeCrate.SettingsStatusIgnored | app/crates/xcode/src/lib.rs:331-335 | a settings query that exits with failure but prints a build directory still leads to the build |
| SqlLike.ContainsPatternIsSubstring | app/src/db/projects.rs:74-79 | for a query without wildcards, `LIKE '%q%'` matches exactly the paths that contain `q`, ignoring ASCII case |

## Left out

- The GUI is not modelled: gpui rendering, the dock icon, window set-up, the `ui` crate and the Tauri tray and CLI.
- Process spawning, stdout/stderr reader threads, the `select!` between streams and the broadcast channel are not modelled. Their observable results are inputs: a `Process.Outcome`, a byte string, a sequence of received messages.
- Timing is not modelled: the 10 s and 15 s `recv_timeout` waits, the 33/200/500 ms sleeps and the 1 s window refresh. The fallback loop's window search and refresh appear as a given sequence of `Step`s.
- Binary discovery (`find_*_binary`, `find_simulator_server`) and `run_build`'s orchestration are not modelled. Whether a binary was found is a parameter.
- Window lookup and window capture through CoreFoundation and CoreGraphics (`find_simulator_window_target`, `capture_window_frame`) are given as the `CgImage` they return.
- JPEG decoding, JSON (simctl, xcodebuild) and TOML parsing, ureq HTTP and axum routing are function parameters or left out.
- Opening the database connection and running migrations are not modelled; the schema is the shape of `ProjectsTable` and `SettingsRepo`.
- `install_app`, `launch_app` and `get_bundle_id` in the xcode crate are glue around `simctl` and are not modelled; the proxy's `do_install_and_launch` is.
- StreamProxy.StreamQuality: the query and environment values arrive already parsed as reals, and the float `Display` text passed to plasma-stream is a parameter, because Rust's float formatting is out of scope.
- StreamProxy.AxeQuality: the float-to-integer cast is modelled as rounding down of an exact real, not as IEEE-754 arithmetic.
- StreamProxy.ListSimulators: iteration order over the simctl JSON object is taken as the given runtime sequence.
- XcodeCrate.IosSimulators: the runtime map's `HashMap` iteration order is taken as the given sequence.
- Session.Decode: the `u64` frame counter is unbounded here; its wrap-around after 2^64 frames is not modelled.
- Session.StopSession: the process kill and reap outcomes are inputs, not modelled calls.
- ProjectService.GetRecentProjects: rows with a timestamp text that is not in SQLite's `YYYY-MM-DD HH:MM:SS` form are not modelled; timestamps order as text.
- StreamProxy.LogStream: the per-line `read_line` errors of the reader threads are not modelled; a reader ends at end of file.
- Fbsimctl.Assemble: the default `row_size` is `4*width` on unbounded integers; the code's unchecked `usize` product (a panic in debug builds, wrap-around in release builds) for widths above `usize::MAX/4` is not modelled, and neither is the same product in the geometry check.
- Fbsimctl.FramesTakenAsWritten: the loop as written is modelled with an iteration bound, because with `frame_size` 0 it has no end.
- Fbsimctl.CaptureWithFbsimctl: a geometry whose product saturates to `frame_size` `usize::MAX` is modelled as offering nothing, since no stash holds `usize::MAX` bytes; the stash growing without bound until memory runs out is not modelled.
- Capture.StepFrame: the fallback loop uses the checked conversion `CgImage.ToRgbaChecked`, which differs from `cgimage_to_rgba` as written in three cases (see Findings). A grab on which the code panics ends the capture thread in the code, which the loop model does not follow. A grab with short rows that still end inside the data (`CgImage.ShortRowsOverlap`) and a grab wider or taller than `u32::MAX` (`CgImage.NarrowedWidthConverted`) are converted by the code into a window-mode frame with overlapping rows or a narrowed size; the model sends no frame for them.
- ProjectsTable.Newest: SQLite leaves the order of rows that tie on `last_opened_at` open; the model lists them in storage order, which is one of the orders SQLite may return.
- Mjpeg.Retries: the 500 ms back-off between attempts is not modelled.
- XcodeBuild.BuildSchemeStream: the interleaving of stderr and stdout lines is given as one sequence of line reads.
- Paths: directory entries that cannot be read individually are not modelled; a directory listing either succeeds as a whole or fails.
- Paths: path text is Unix text in `seq<char>`; Windows prefixes and the lossy conversion of non-UTF-8 names (`to_string_lossy`) are not modelled. Symbolic links are not followed: a file is found by its components alone, so "a/../b" is looked up literally.
- The code drops the NEW frame when the hand-off slot is full, which keeps the oldest frame waiting. The model follows the code (`Channel.OldestFrameWins`), while the comment at app/crates/app/src/main.rs:206 ("skip older ones") describes only the UI's drain, which keeps the last of the frames it finds waiting (`Channel.LatestOf`).
- No capture path reports success: both stream readers return only failure values. The model follows the code (`Mjpeg.StreamWithRetries`, `Capture.CaptureFrames`).

## Findings

| source | as written | input that shows it | evidently intended | confidence | as-written member | corrected member |
|---|---|---|---|---|---|---|
| app/crates/app/src/main.rs:679-697 | the geometry check accepts `frame_size` 0, and the slicing loop at line 523 then takes empty frames forever, so the attempt offers empty 390 by 0 images without end (`Fbsimctl.ZeroFrameSpins`) | banner `{ width=390, height=0 }`: `row_size` 1560 and `frame_size` 0 pass the check | reject a geometry whose `frame_size` is 0 | not executed | Fbsimctl.ZeroFrameAccepted | Fbsimctl.RowsFit |
| app/crates/app/src/main.rs:688-697 | the check compares the saturating product `row_size*height` with `frame_size`, so an overflowing product equal to `usize::MAX` passes; the mode is stored, no stash ever holds a whole frame, and nothing is offered | width 2^61, height 2, row_size 2^63, frame_size 2^64-1 | reject a geometry whose product overflows | not executed (low: needs a banner no real surface prints) | Fbsimctl.SaturationAdmitsOverrun | Fbsimctl.GeometryCorrection |
| app/crates/app/src/main.rs:326-362 | `cgimage_to_rgba` never checks that `bytes_per_row` covers `4*width`, so the row copy can read past a row or past the data | width 2, height 1, bytes_per_row 4, 4 bytes of data | reject an image whose rows are shorter than `4*width` | not executed | CgImage.GuardsAdmitShortRows | CgImage.ToRgbaChecked |
| app/crates/app/src/main.rs:326-346 | the size is cast to `u32` and `width * height * 4` is a `u32` product, which overflows once an image has 2^30 pixels | width and height 32768, bytes_per_row 131072, 4 GiB of data | compute the size without overflow, or refuse the image | not executed; low: no Simulator window is that large | CgImage.U32ProductOverflows | CgImage.ToRgbaChecked |
| app/src/services/projects.rs:168-175 | `save_project` inserts a new project without setting `project_type`, which the schema declares NOT NULL, so saving any new project fails | saving "/p/App.xcodeproj" to an empty store | insert the project's type with the row | not executed | ProjectService.SaveProjectAsWritten | ProjectService.SaveProject |
