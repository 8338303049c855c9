# A verified model of the Mumble overlay and its neighbours

This project models, in Dafny, the parts of the repository whose correctness is hardest to see from
the code: the overlay's pipe and its pictures, its function hooking, two text generators, a recording
parser, and three smaller algorithms. Each program part that changes state is a class or a loop, proved
equal to a specification function; what the program promises is then proved about those functions.

| file | what it models |
|---|---|
| `Framing.dfy`, `Liveness.dfy` | the overlay wire format, a reference parser, and the passes of the receive loop over bytes arriving in any pieces |
| `Rects.dfy` | damage rectangles and the merge loop |
| `Pipe.dfy`, `PipeSafety.dfy` | the class `Pipe` with its buffers, and what holds over any run of its operations |
| `Commands.dfy` | the commands that Mumble sends, with a simple screen as partner of the pipe |
| `Blit.dfy` | copying boxes of the shared picture into a Direct3D texture, or packed for OpenGL |
| `Texture.dfy` | the texture as a cache of the shared picture, over all frames |
| `HardHook.dfy`, `HookLifecycle.dfy`, `HookSystem.dfy`, `HookClasses.dfy` | instruction lengths, trampolines, their allocator, the life of one hook and of all hooks together, and the classes that write memory |
| `TextWrap.dfy` | the line wrapper of the CHANGES generator |
| `HexText.dfy`, `Der.dfy`, `Pem.dfy` | the DER, PEM and C-string writer, with strict readers as partners |
| `Recording.dfy` | the parser of recordings, with the sender's encoder as partner |
| `Maps.dfy` | modules from `/proc/<pid>/maps`, with a printer as partner |
| `SymbolLookup.dfy` | the GNU hash-table walk against the linear scan |
| `RefCounting.dfy` | the overlay's invisible reference counting |
| `Bytes.dfy`, `Options.dfy`, `Text.dfy` | bytes and 32-bit words, results, splitting and joining |

Answers of the operating system, Direct3D and OpenGL (does a call succeed, how many bytes have arrived,
which page is handed out) are arguments of the operations, so every theorem holds for all of them. `dafny verify dfyconfig.toml` checks the whole project.

## What the proofs found

Where a desirable property does not hold of the code, the model keeps the code and the exact condition is proved.

- A header seen split behind its fourth byte loses the frame: the length field doubles as the mark that no header has been read (`SplitKeepsSyncIff`; `LateSplitDispatchesWrongMessage` gives a case).
- `disconnect` leaves `dwAlreadyRead` alone, so a new connection starts in step exactly when the old one ended between two reads (`ReconnectInSyncIff`).
- With a whole body held and fewer bytes of the next frame waiting than that body has, the receive loop spins without dispatching until more arrives (`SpinsIff`).
- In that state a frame behind is not enough: a 16-byte body that came in two pieces is not dispatched when a whole frame without a body follows it (`FrameBehindIsNotEnough`). Frames that are there are dispatched exactly when the receiver does not wait like this (`ArrivedIsDispatchedIff`), and always once behind each as many bytes have come in as its body has (`PiecesAreDispatched`).
- A connection that fails between two reads, or on a header it has just read, leaves the next one in step; any other failure does not (`FailureLeaves`).
- The size check on shared memory compares with a 32-bit product, so it means what it should exactly below 4 GiB (`SizeCheckSuffices`).
- A BLIT body shorter than 16 bytes is completed from whatever an earlier body left in the buffer: the rectangles blitted are the ones asked for exactly when all BLIT bodies are whole (`FlushesMergedBoxes`; `ShortBlitIsCompleted` blits a rectangle made of the name of the shared memory).
- Resetting a hook that is in place makes the hook's own code the saved original at the next setup (`ResetKeepsOriginalIff`).
- The documentation of `derLength` allows 127 length octets. Section 8.1.3.5 c of ITU-T X.690 reserves the first octet 255, so a strict reader accepts the result exactly below 256^126 (`LengthRoundTrip`).
- `derUnsignedInteger` keeps redundant leading zeros, which section 8.3.2 forbids (`IntegerRoundTripIff`).
- `writeCStr` drops empty lines and ends the declaration at every line equal to the last one (`CStrRoundTripIff`); PEM text never has such lines (`PemLiterals`).
- Of the wide forms of a variable-length number, only small values survive reading, because of shift precedence and 32-bit shifts (`ValueExactIff`); the widths consumed are always right (`WidthsAreRight`).
- The wrapper cuts a word by characters but measures columns, so all lines fit exactly when no piece kept by a cut holds a tab (`LinesFitIff`; `TabsOverflow` gives a case); and it ends exactly when it never comes to an empty line with a word that neither fits nor can be cut (`EndsIff`), which is how an indent that fills the line makes it loop for ever (`StuckIff`).
- The overlay's calls are told from the application's by the thread that makes them, so what the application sees is off by exactly the net of the calls counted for the wrong side (`SeenIsOffByDrift`, `TransparentIff`). Sections that keep to one thread at a time make the overlay invisible (`OrderlyIsTransparent`); two threads that end them out of order leave one of them noted for good (`OutOfOrderSectionsHideCalls`).
- Presenting through a swap chain makes two calls outside any section: other threads see one reference too many meanwhile (`SwapPresentShows`), and the pipe is disconnected in every frame exactly when the application holds at most one reference more than at creation (`SwapPresentDisconnectsIff`).
- A scan for the first `dlsym` of type function and a hash walk that ignores types agree exactly as `FindBothWays` says.

## Model

| member | source | states |
|---|---|---|
| `Rects.MergeBlit` | mumble/overlay/lib.cpp:285-297 | the restarting loop terminates (list length, then distance to the end) and absorbs exactly as the recursive specification does |
| `Rects.MeetsIffCommonPixel` | mumble/overlay/lib.cpp:288 | the overlap test is true exactly when the rectangles share a pixel |
| `Rects.UnionIsHull` | mumble/overlay/lib.cpp:289-290 | the union of overlapping rectangles lies in a rectangle exactly when both do |
| `Rects.MergeOneApart` | mumble/overlay/lib.cpp:280-298 | one BLIT message keeps the list pairwise non-overlapping |
| `Rects.MergeOneHosts` | mumble/overlay/lib.cpp:280-298 | the request and every earlier box lie whole inside some box afterwards |
| `Rects.MergeOneLeast` | mumble/overlay/lib.cpp:280-298 | one message keeps every box inside a single member of any non-overlapping family that holds the requests |
| `Rects.MergeOneEmpties` | mumble/overlay/lib.cpp:280-298 | empty rectangles are never absorbed and never absorb |
| `Rects.MergeAllSound` | mumble/overlay/lib.cpp:280-298 | after any messages: boxes non-overlapping, every request in one of them |
| `Rects.MergeAllLeast` | mumble/overlay/lib.cpp:280-298 | the boxes are the least such family |
| `Rects.MutualHostsEqual` | mumble/overlay/lib.cpp:280-298 | two non-overlapping families that hold each other have the same non-empty members |
| `Rects.OrderIndependent` | mumble/overlay/lib.cpp:280-298 | any permutation of the requests, empty ones included, leaves the same multiset of boxes |
| `Rects.BoxesCoverAndStayOnScreen` | mumble/overlay/lib.cpp:280-298 | every requested pixel is in a box; boxes stay on a screen if and only if the requests do |
| `Framing.ParseFrame` | mumble/overlay/overlay.h:9-70 | the reference parser cuts off one encoded frame, whatever follows |
| `Framing.ParseEncodeAll` | mumble/overlay/overlay.h:9-70 | parsing undoes encoding for any list of messages, whatever follows |
| `Framing.FrameOfFields` | mumble/overlay/overlay.h:12-16 | a header in range with its body is the encoding of the message read from its fields |
| `Framing.HeldIsNext` | mumble/overlay/lib.cpp:169-221 | in step, bytes held plus bytes to come start the next frame |
| `Framing.FillBody` | mumble/overlay/lib.cpp:209-216 | a partial body read keeps the receiver in step |
| `Framing.FinishBody` | mumble/overlay/lib.cpp:218-221 | a finished body is exactly one more frame, and the mark for no header is back |
| `Framing.ReadBodySafe` | mumble/overlay/lib.cpp:209-221 | the body half of a pass keeps step, writes inside the buffer, and dispatches only the next frame |
| `Framing.StepSafe` | mumble/overlay/lib.cpp:169-221 | one pass never writes astray; what it dispatches is the next frame of the stream, complete; after anything but a failure it is still in step (`Liveness.OutcomeIff` says when it fails) |
| `Framing.MarkerSurvivesIff` | mumble/overlay/lib.cpp:182 | which partial headers leave the length field at -1 |
| `Framing.SplitKeepsSyncIff` | mumble/overlay/lib.cpp:182-195 | exactly which partial header reads keep the receiver in step, by the bytes of the header there are after the read |
| `Framing.PartialHeader` | mumble/overlay/lib.cpp:182-195 | a pass that leaves the header unfinished has added bytes of the stream to it and nothing else |
| `Framing.ReconnectInSyncIff` | mumble/overlay/lib.cpp:92-102 | a new connection starts in step exactly when no bytes were held at the disconnect |
| `Framing.SpinsIff` | mumble/overlay/lib.cpp:209-219 | exactly when a quiet pass changes nothing and the loop repeats |
| `Framing.WholeFrameDispatched` | mumble/overlay/lib.cpp:169-221 | a frame that has arrived whole is dispatched in one pass |
| `Framing.ArrivedFramesDispatched` | mumble/overlay/lib.cpp:169-221 | when whole frames have arrived, as many passes dispatch all of them, in order |
| `Framing.LateSplitDispatchesWrongMessage` | mumble/overlay/lib.cpp:182-221 | a BLIT frame whose header is seen after 8 bytes is dispatched under a stale type |
| `Liveness.OutcomeIff` | mumble/overlay/lib.cpp:169-221 | exactly how a pass ends, by what it finds and the answers it gets: it fails if and only if a call it makes fails or the header it completes does not start with the magic number; it leaves the loop only for want of bytes; it dispatches if and only if the header is there and as many bytes were waiting as the body has |
| `Liveness.FailureLeaves` | mumble/overlay/lib.cpp:92-102 | what a failing pass leaves behind, and exactly when the connection that replaces this one starts in step |
| `Liveness.PassDispatchesIff` | mumble/overlay/lib.cpp:205-219 | a frame that has come in is dispatched at once, unless its header was read before; then if and only if behind it as many bytes wait as were read of its body |
| `Liveness.PassesDispatch` | mumble/overlay/lib.cpp:169-221 | while frames come in, in whatever pieces, the connection survives every pass and only the next messages are dispatched |
| `Liveness.PiecesAreDispatched` | mumble/overlay/lib.cpp:169-221 | promptness for any pieces: once behind each of the first frames as many bytes have come in as its body has, as many passes as there are such frames have dispatched all of them, in order |
| `Liveness.ArrivedIsDispatchedIff` | mumble/overlay/lib.cpp:205-219 | exactly when frames that have come in are dispatched without anything new, and otherwise never |
| `Liveness.FrameBehindIsNotEnough` | mumble/overlay/lib.cpp:205-219 | a body of 16 bytes in two pieces and a whole empty frame behind it: nothing is dispatched, ever |
| `OverlayPipe.Pipe.constructor` | mumble/overlay/lib.cpp:62-73 | a new pipe is fresh: nothing connected, mapped, held or known |
| `OverlayPipe.Pipe.Release` | mumble/overlay/lib.cpp:79-90 | gives up mapping, view and active rectangle together, if there is a mapping |
| `OverlayPipe.Pipe.Disconnect` | mumble/overlay/lib.cpp:92-102 | the whole new state of a disconnect; the count of bytes read stays |
| `OverlayPipe.Pipe.SendMessage` | mumble/overlay/lib.cpp:104-115 | reports success, or disconnects |
| `OverlayPipe.Pipe.ReceiveBody` | mumble/overlay/lib.cpp:209-221 | the body half on the real buffers is the specified one |
| `OverlayPipe.Pipe.ReceiveHeader` | mumble/overlay/lib.cpp:182-207 | the header half on the real buffers is the specified one |
| `OverlayPipe.Pipe.ReceiveOnce` | mumble/overlay/lib.cpp:170-221 | one pass on the real buffers is the specified one |
| `OverlayPipe.Pipe.OpenMemory` | mumble/overlay/lib.cpp:224-279 | handling SHMEM, through every failing step |
| `OverlayPipe.Pipe.HandleMessage` | mumble/overlay/lib.cpp:223-311 | the switch over the message type, on the body buffer as it stands |
| `OverlayPipe.Pipe.Dial` | mumble/overlay/lib.cpp:121-144 | connecting and announcing the process |
| `OverlayPipe.Pipe.Announce` | mumble/overlay/lib.cpp:147-165 | starting over for another picture size |
| `OverlayPipe.Pipe.ReceiveAll` | mumble/overlay/lib.cpp:167-313 | the receive loop |
| `OverlayPipe.Pipe.CheckMessage` | mumble/overlay/lib.cpp:117-320 | the whole call: new state, messages sent and virtual calls made, in order |
| `PipeSafety.ReceiveKeepsMemory` | mumble/overlay/lib.cpp:169-313 | the receive loop keeps the memory invariant |
| `PipeSafety.MemoryAlwaysHeld` | mumble/overlay/lib.cpp:79-320 | over any operations: a view implies the mapping, the connection, and the computed size for the current picture |
| `PipeSafety.SizeCheckSuffices` | mumble/overlay/lib.cpp:259-261 | passing the size check means a whole picture is mapped if and only if the picture is below 4 GiB |
| `PipeSafety.ViewHoldsPicture` | mumble/overlay/lib.cpp:259-261 | then everything the drawing code reads lies inside the view |
| `PipeSafety.OnePassTracked` | mumble/overlay/lib.cpp:169-312 | one pass keeps track of the stream, through failures and disconnects |
| `PipeSafety.ReceiveTracked` | mumble/overlay/lib.cpp:169-313 | so does the loop; messages are only appended |
| `PipeSafety.OpeningTracked` | mumble/overlay/lib.cpp:121-165 | connecting and resizing keep track |
| `PipeSafety.CheckTracked` | mumble/overlay/lib.cpp:117-320 | one call never goes astray, and all that was dispatched on the connection is a prefix of the reference parse of its stream |
| `PipeSafety.FramingSafe` | mumble/overlay/lib.cpp:92-320 | framing safety over any run of calls and reconnects, however the bytes are chunked |
| `PipeSafety.PipeSafe` | mumble/overlay/lib.cpp:62-320 | both invariants from a new pipe on |
| `PipeSafety.CallUpOrEnded` | mumble/overlay/lib.cpp:117-320 | a call that is not cut short stays connected; one that is has let go of the connection and of memory |
| `PipeSafety.DisconnectIsFreshIff` | mumble/overlay/lib.cpp:92-102 | a disconnected pipe is as good as new exactly when it held no bytes |
| `PipeSafety.SendEndsIff` | mumble/overlay/lib.cpp:92-115 | writing ends the connection exactly when it fails |
| `PipeSafety.ReceivesArrived` | mumble/overlay/lib.cpp:169-313 | when whole frames have arrived, the loop dispatches and handles all of them, in order |
| `PipeSafety.FirstCallDispatchesAll` | mumble/overlay/lib.cpp:117-320 | from a new pipe: one call connects, announces itself and dispatches exactly the messages whose frames have arrived |
| `PipeSafety.OnePassCollects` | mumble/overlay/lib.cpp:223-312 | one pass keeps the list equal to the merge of the requests received |
| `PipeSafety.FlushesMergedBoxes` | mumble/overlay/lib.cpp:280-298 | a call that ends normally with memory mapped ends by blitting exactly the merged boxes of the rectangles it received, which are those its BLIT messages ask for if and only if all of them are whole |
| `PipeSafety.ShortBlitIsCompleted` | mumble/overlay/lib.cpp:280-283 | for any name of at least 16 bytes, a legal stream on which a short BLIT is completed with bytes of the SHMEM message before it, and blitted |
| `Commands.RequestIsWhatWasSentIff` | mumble/overlay/lib.cpp:281-283 | for the fields x, y, w and h as sent, the rectangle is (x, y, x + w, y + h) if and only if its far corner is below 2^31 |
| `Commands.HandleObeys` | mumble/overlay/lib.cpp:223-311 | for every encoded command: the new view, active rectangle, damage, boxes and events are those the command asks for; a mapping is acknowledged before the texture is made anew |
| `Commands.UnacknowledgedEndsIff` | mumble/overlay/lib.cpp:268-275 | a message ends the connection exactly when memory was mapped for it and this cannot be acknowledged |
| `Commands.LoopEndsIff` | mumble/overlay/lib.cpp:174-203 | a pass leaves the loop for want of bytes, and otherwise only over a failure |
| `Commands.PassObeys` | mumble/overlay/lib.cpp:169-312 | one pass over bytes carries out the next command of the stream, or none |
| `Commands.ReceiveObeys` | mumble/overlay/lib.cpp:167-313 | the loop refines the simple screen: however the bytes of the commands are chunked, it carries out the next ones, each once, in order |
| `Commands.CallObeys` | mumble/overlay/lib.cpp:117-320 | a whole call, connecting and resizing included: which commands it carries out at least, the state they leave, and all its events, down to the blits of the merged damage |
| `Commands.CallsObey` | mumble/overlay/lib.cpp:117-320 | over any run of such calls the connection lasts and no command is lost or repeated |
| `Blitting.SourceOffsetExact` | mumble/overlay/d3d9.cpp:130 | the 32-bit source offset is exact for pictures below 4 GiB |
| `Blitting.CopyBytes` | mumble/overlay/d3d9.cpp:131 | what a row copy writes, nothing else changed |
| `Blitting.TexelAfterCopy` | mumble/overlay/d3d9.cpp:128-132 | each texel after a row copy between pictures of any two pitches |
| `Blitting.RowExtends` | mumble/overlay/d3d9.cpp:128-132 | one more row extends the copied box by that row |
| `Blitting.WholeOrPart` | mumble/overlay/d3d9.cpp:113-126 | the bytes a discarding lock destroys are all restored by the blit that asks for it |
| `Blitting.DevState.CopyRows` | mumble/overlay/d3d9.cpp:128-132 | the row loop copies exactly the texels of the box, for any pitch of at least 4 bytes a texel |
| `Blitting.DevState.Blit` | mumble/overlay/d3d9.cpp:102-135 | nothing without texture, view, active area or lock; otherwise exactly the box |
| `Blitting.DevState.BlitAll` | mumble/overlay/lib.cpp:318-319 | all boxes in turn: exactly the texels of the boxes whose locks were granted, or nothing without texture, view or active area |
| `Blitting.BlittedTrans` | mumble/overlay/lib.cpp:318-319 | box after box adds up, however the boxes overlap |
| `Blitting.PackRows` | mumble/overlay_gl/overlay.c:383-397 | the packed buffer holds the rows of the box |
| `Blitting.PackedUploadIsBlit` | mumble/overlay_gl/overlay.c:391-401 | a texture holds the result of uploading the packed rows exactly when it holds the result of copying the box directly |
| `Blitting.RequestsAreShown` | mumble/overlay/lib.cpp:280-319 | cache agreement within a call: after the merged boxes are blitted every requested texel equals shared memory, texels outside the boxes are unchanged |
| `TextureCache.PlayBlit` | mumble/overlay/d3d9.cpp:102-135 | the blit method does to the texture what the event says |
| `TextureCache.FlushAgrees` | mumble/overlay/lib.cpp:315-319 | with an active area, the blits at the end of a call show every request |
| `TextureCache.ReceiveAwake` | mumble/overlay/lib.cpp:299-308 | where an area becomes active in a call, with the texture kept, the whole picture has been blitted |
| `TextureCache.OldAgrees` | mumble/overlay/lib.cpp:117-320 | what agreed before a call and was not asked for again agrees after it, also where the area was inactive until then |
| `TextureCache.CallAgrees` | mumble/overlay/lib.cpp:117-320 | after a call, everything asked for since the mapping in use agrees |
| `TextureCache.DrawFresh` | mumble/overlay/d3d9.cpp:199-242 | so it does after a frame, in which a missing texture is made and filled |
| `TextureCache.AlwaysFresh` | mumble/overlay/d3d9.cpp:93-242 | cache agreement over any run of frames, releases, disconnects and messages: whenever the overlay is drawn, the texture agrees with shared memory on everything asked for since the mapping |
| `Hooking.ModRmIsAddress` | mumble/overlay/HardHook_x86.cpp:42-67 | the extra bytes are those of section 2.1.5, volume 2A of the Intel SDM, for all bytes |
| `Hooking.LengthsAreIntels` | mumble/overlay/HardHook_x86.cpp:138-201 | instruction lengths equal those of the manual, on all bytes, and are at most 11 |
| `Hooking.LengthIsLocal` | mumble/overlay/HardHook_x86.cpp:138-201 | a length depends on no byte behind the instruction |
| `Hooking.CopyRunApart` | mumble/overlay/HardHook_x86.cpp:134-201 | copying byte by byte, in place, copies the bytes that were there, as far as they can be moved, where code and copy do not overlap |
| `Hooking.CopyRunWrites` | mumble/overlay/HardHook_x86.cpp:134-201 | also where they overlap, only the sixteen bytes at the copy are written |
| `Hooking.CloneShape` | mumble/overlay/HardHook_x86.cpp:96-221 | a successful clone is at least six bytes of whole instructions and the jump back, inside the page, behind all that was used |
| `Hooking.PushesAreCloned` | mumble/overlay/HardHook_x86.cpp:96-221 | a function that starts with six one-byte pushes gets one, at the start of a new page |
| `Hooking.ClonesExactly` | mumble/overlay/HardHook_x86.cpp:96-221 | for any instructions of the lengths given by the manual: the trampoline is made of exactly those up to the sixth byte and the jump, at the next place in the page; if one of them cannot be moved there is none |
| `Hooking.JumpsAreFollowed` | mumble/overlay/HardHook_x86.cpp:117-132 | for any chain of leading jumps, each to its address + 5 + operand: cloning the first address is cloning the last, which becomes the hooked address |
| `Hooking.JumpsAreRefused` | mumble/overlay/HardHook_x86.cpp:109-132 | where an address of the chain cannot be made readable, that one is hooked without a trampoline; without a page no jump is followed |
| `Hooking.ChainIsSilent` | mumble/overlay/HardHook_x86.cpp:114-116 | executing the jumps of a chain meets the same instructions as starting behind them |
| `Hooking.JumpLandsBehindCopy` | mumble/overlay/HardHook_x86.cpp:206-212 | the appended relative jump leads exactly behind the copied bytes of the original |
| `Hooking.FetchScanned` | mumble/overlay/HardHook_x86.cpp:138-201 | fetching the copied bytes, wherever they lie, meets the scanned instructions and arrives behind them |
| `Hooking.FetchUnchanged` | mumble/overlay/HardHook_x86.cpp:69-95 | a run does not notice changes in memory it avoids |
| `Hooking.OnlyChangedChanges` | mumble/overlay/HardHook_x86.cpp:96-221 | cloning and hooking change only the page and the six bytes |
| `Hooking.TrampolineFaithful` | mumble/overlay/HardHook_x86.cpp:69-221 | for any number of steps, fetching from the trampoline in patched memory meets the instructions the function had in unpatched memory |
| `Hooking.HookedGoesToReplacement` | mumble/overlay/HardHook_x86.cpp:256-259 | the six hook bytes push the replacement's address and return to it |
| `Hooking.CloneWrites` | mumble/overlay/HardHook_x86.cpp:96-221 | every call, successful or not, writes only the unused part of the page it fills |
| `Hooking.PerformIntact` | mumble/overlay/HardHook_x86.cpp:97-100 | one call, or a write elsewhere, keeps pages apart and trampolines housed, apart and unaltered |
| `Hooking.TrampolinesSafe` | mumble/overlay/HardHook_x86.cpp:97-221 | allocator safety over any run of successful and failed calls |
| `HookClasses.Process.FollowJumps` | mumble/overlay/HardHook_x86.cpp:106-132 | the loop over leading jumps |
| `HookClasses.Process.CopyInstructions` | mumble/overlay/HardHook_x86.cpp:136-201 | the copying loop, byte by byte, also when it gives up half-way or overwrites what it reads |
| `HookClasses.Process.BuildTrampoline` | mumble/overlay/HardHook_x86.cpp:134-220 | copy and jump written to the page, and the used mark moved |
| `HookClasses.Process.CloneCode` | mumble/overlay/HardHook_x86.cpp:96-221 | the whole call on real memory is the specified one |
| `HookClasses.HardHook.Inject` | mumble/overlay/HardHook_x86.cpp:302-326 | the new memory, and nothing else changed |
| `HookClasses.HardHook.Restore` | mumble/overlay/HardHook_x86.cpp:338-353 | the new memory, and nothing else changed |
| `HookClasses.HardHook.Check` | mumble/overlay/HardHook_x86.cpp:368-379 | the six bytes become the hook exactly where the original bytes are back and can be written; everything else stays |
| `HookClasses.HardHook.Reset` | mumble/overlay/HardHook_x86.cpp:283-290 | the hook is as if never used; memory is left alone |
| `HookClasses.HardHook.Setup` | mumble/overlay/HardHook_x86.cpp:233-274 | cloning, saving and injecting, through every failing step; nothing on an active hook |
| `HookLifecycle.SetupSound` | mumble/overlay/HardHook_x86.cpp:233-274 | setup establishes the hook invariant and keeps it on an active hook |
| `HookLifecycle.SetupOnBytes` | mumble/overlay/HardHook_x86.cpp:233-274 | after a setup: what there is to call, whether the hook is set up, the bytes saved, and the bytes in memory |
| `HookLifecycle.CheckOnBytes` | mumble/overlay/HardHook_x86.cpp:368-379 | after a check the six bytes are the hook if and only if they were, or were the original ones and can be written; third-party code and all other memory stay |
| `HookLifecycle.PatchOnBytes` | mumble/overlay/HardHook_x86.cpp:302-353 | inject and restore, forced and not, with and without a trampoline: exactly when they write, and what |
| `HookLifecycle.HookSound` | mumble/overlay/HardHook_x86.cpp:233-379 | over any operations: the target holds all of the original or all of the hook bytes, the saved bytes are those seen at setup, nothing else has changed, the trampoline stands |
| `HookLifecycle.RestoreReturnsSeen` | mumble/overlay/HardHook_x86.cpp:338-353 | a forced restore that can write returns the bytes seen at setup, and all memory outside the page |
| `HookLifecycle.BracketRunsUnhooked` | mumble/overlay/lib.cpp:331-337 | without a trampoline, the bracketed call runs unhooked exactly when the restore could write or the hook was off already |
| `HookLifecycle.BracketedCall` | mumble/overlay/HardHook_x86.cpp:247-252 | without a trampoline, what is called between restore and inject meets the instructions of the function as before setup |
| `HookLifecycle.CallThroughTrampoline` | mumble/overlay/HardHook_x86.cpp:242-245 | with a trampoline, calling through it meets the function's instructions as before setup, at any point of the hook's life |
| `HookLifecycle.InjectedGoesToReplacement` | mumble/overlay/HardHook_x86.cpp:254-267 | after a setup that can write, the function leads to the replacement |
| `HookLifecycle.ResetKeepsOriginalIff` | mumble/overlay/HardHook_x86.cpp:283-290 | setting up again saves the true original exactly when the reset found it in place |
| `HookSystem.OneHookActs` | mumble/overlay/HardHook_x86.cpp:233-379 | an operation changes no other hook, and memory as it does for that hook alone |
| `HookSystem.WriteSound` | mumble/overlay/HardHook_x86.cpp:69-95 | somebody else's write, off pages and targets, leaves all hooks standing |
| `HookSystem.PatchSound` | mumble/overlay/HardHook_x86.cpp:302-353 | injecting or restoring one hook leaves all hooks standing |
| `HookSystem.CloneSound` | mumble/overlay/HardHook_x86.cpp:96-221 | cloning, on a new page or in the page in use, leaves all hooks standing |
| `HookSystem.SetupSound` | mumble/overlay/HardHook_x86.cpp:233-274 | setting up one more hook leaves all hooks standing, the new one included |
| `HookSystem.HooksStand` | mumble/overlay/HardHook_x86.cpp:96-379 | over any interleaving of several hooks' operations and other writes, every target holds all of its original or all of its hook, and every trampoline is faithful |
| `HookSystem.UnhookedWindow` | mumble/overlay/HardHook_x86.cpp:261-263 | taking all hooks out of memory gives back each target's code |
| `HookSystem.CallsAreFaithful` | mumble/overlay/HardHook_x86.cpp:242-245 | whatever the others do, a call through a trampoline meets the instructions its function has in memory without any hook |
| `HookSystem.HooksStayFaithful` | mumble/overlay/HardHook_x86.cpp:18-379 | the same from unused hooks on, over any run |
| `TextWrap.CountWidth` | mumble/scripts/generate-CHANGES.py:21-34 | the counting loop computes the width in columns |
| `TextWrap.WidthVsLength` | mumble/scripts/generate-CHANGES.py:21-34 | width is at least length, and equal exactly without tabs |
| `TextWrap.StepProgress` | mumble/scripts/generate-CHANGES.py:65-159 | the termination measure: every turn that is not stuck uses up characters or words, or finishes a line that holds text |
| `TextWrap.PerlCompatibleTextWrap` | mumble/scripts/generate-CHANGES.py:37-168 | on every input on which the loop ends, for any width and indents, it joins the lines the turns produce |
| `TextWrap.EndsIff` | mumble/scripts/generate-CHANGES.py:65-159 | the loop ends exactly when it never comes to an empty line with a word that does not fit and is put back whole |
| `TextWrap.RoomyEnds` | mumble/scripts/generate-CHANGES.py:65-159 | with room for text on every line it ends |
| `TextWrap.StuckIff` | mumble/scripts/generate-CHANGES.py:122-138 | on an empty line with a word that does not fit, it repeats for ever exactly when the indent fills the line, or exceeds it by the length of the word |
| `TextWrap.CutFitsIff` | mumble/scripts/generate-CHANGES.py:134-138 | a cut loses nothing, and the piece kept fits exactly when it holds no tab |
| `TextWrap.LinesFitIff` | mumble/scripts/generate-CHANGES.py:50-165 | every output line has at most width - 1 columns if and only if no piece kept when a word is cut holds a tab |
| `TextWrap.LinesFit` | mumble/scripts/generate-CHANGES.py:50-165 | in particular when each word is without tabs, or fits on a line of its own |
| `TextWrap.TabsOverflow` | mumble/scripts/generate-CHANGES.py:134-138 | on n columns, a word of n tabs makes a line of 8n columns |
| `TextWrap.StepSays` | mumble/scripts/generate-CHANGES.py:65-159 | one turn of the loop moves text and loses none |
| `TextWrap.ContentConserved` | mumble/scripts/generate-CHANGES.py:61-168 | the lines without their indents and without spaces are the text without spaces, for any mix of words |
| `TextWrap.NoLineIsEmpty` | mumble/scripts/generate-CHANGES.py:59-165 | no output line is empty, whatever the words and indents |
| `TextWrap.StepGreedy` | mumble/scripts/generate-CHANGES.py:104-156 | a turn breaks a line only where the next word would not have fitted |
| `TextWrap.WrapsOnlyAtSpaces` | mumble/scripts/generate-CHANGES.py:37-168 | for words that each fit on a line, joining the lines with spaces gives back the text, and lines are filled greedily |
| `HexText.DehexifyIsFromHex` | mumble/scripts/generate-ffdhe.py:268-274 | how the text is laid out in lines does not matter |
| `HexText.DehexifyReadsLayouts` | mumble/scripts/generate-ffdhe.py:268-274 | bytes written as pairs of digits in either case, with any ASCII white space before each, are read back |
| `HexText.StrayRaises` | mumble/scripts/generate-ffdhe.py:268-274 | anything but hexadecimal digits and white space raises an exception |
| `Der.EncodeSequence` | mumble/scripts/generate-ffdhe.py:414-420 | the loop over the entries |
| `Der.HexBytes` | mumble/scripts/generate-ffdhe.py:364-378 | the padded hexadecimal text of a number reads as its shortest bytes |
| `Der.DerLengthShape` | mumble/scripts/generate-ffdhe.py:363-398 | the octets produced, and an exception exactly outside 1 .. 256^127 - 1 |
| `Der.LengthRoundTrip` | mumble/scripts/generate-ffdhe.py:363-398 | reading the octets returns size and suffix; strictly, exactly below 256^126 (sections 8.1.3 and 10.1 of ITU-T X.690) |
| `Der.LengthShortest` | mumble/scripts/generate-ffdhe.py:363-398 | no octets that read as the size, wasteful ones included, are fewer |
| `Der.StrictLengthUnique` | mumble/scripts/generate-ffdhe.py:363-398 | the octets produced are the only ones a strict reader accepts |
| `Der.ContentValue` | mumble/scripts/generate-ffdhe.py:449-453 | the zero octet clears the sign bit, keeps the value, and is itself never redundant |
| `Der.IntegerRoundTripIff` | mumble/scripts/generate-ffdhe.py:446-456 | an integer is read back strictly exactly when it was given without redundant zeros, and refused otherwise (section 8.3) |
| `Der.SequenceRoundTrip` | mumble/scripts/generate-ffdhe.py:414-456 | a sequence of integers is decoded to exactly those numbers, nothing left over (section 8.9) |
| `Der.SequenceInjective` | mumble/scripts/generate-ffdhe.py:414-456 | equal encodings come from equal numbers |
| `Der.ParametersRoundTrip` | mumble/scripts/generate-ffdhe.py:268-456 | from the hexadecimal text of p and g, in any layout, to the numbers (p, g) and back out of the DER data |
| `Pem.Base64RoundTrip` | mumble/scripts/generate-ffdhe.py:485 | decoding the base64 text returns the data (section 4 of RFC 4648), and the text has no special characters |
| `Pem.AppendFlow` | mumble/scripts/generate-ffdhe.py:486-495 | the counting loop puts a line feed behind every 64 characters |
| `Pem.FlowIsLines` | mumble/scripts/generate-ffdhe.py:486-497 | with the closing line feed this is lines of 64 and a shorter last one |
| `Pem.MakePem` | mumble/scripts/generate-ffdhe.py:484-499 | the text as written is the boundaries around those lines, for empty data too |
| `Pem.LinesShape` | mumble/scripts/generate-ffdhe.py:486-497 | every body line has 64 characters but the last, which has 1 to 64 (section 2 of RFC 7468) |
| `Pem.PemRoundTrip` | mumble/scripts/generate-ffdhe.py:484-499 | reading the PEM text returns the data, and its lines are as required |
| `Pem.WriteCStr` | mumble/scripts/generate-ffdhe.py:521-530 | the lines written, or an exception where there is no line |
| `Pem.ReadsLiterals` | mumble/scripts/generate-ffdhe.py:525-530 | which lists of literals a compiler reads as the whole text |
| `Pem.CStrRoundTripIff` | mumble/scripts/generate-ffdhe.py:521-530 | the literals read back as the text exactly when it has no empty line and no earlier line equal to the last |
| `Pem.PemLiterals` | mumble/scripts/generate-ffdhe.py:484-530 | PEM text survives, with its one terminator at the end |
| `Recording.FillOpusData` | mams-parser/main.ts:129-152 | the moving pointer and the filled buffer give the specified extraction |
| `Recording.ParseFile` | mams-parser/main.ts:179-203 | the record loop |
| `Recording.WidthsAreRight` | mams-parser/main.ts:66-127 | every supported form is read with its width, whatever surrounds it |
| `Recording.WidthOfForm` | mams-parser/main.ts:66-127 | the bytes taken for any first byte, at any position; unsupported forms read as 0 and take nothing |
| `Recording.OrIsBitwise` | mams-parser/main.ts:92-101 | the or of the two halves of a 64-bit number, bit by bit |
| `Recording.ValueExactIff` | mams-parser/main.ts:66-127 | for each form, exactly which numbers are read as they were written |
| `Recording.FlaggedExactly` | mams-parser/main.ts:129-152 | for any length claimed by a flagged packet: it is passed over exactly when that is more than the whole packet; otherwise that many bytes are extracted, with zeros for missing ones |
| `Recording.PacketRoundTrip` | mams-parser/main.ts:129-163 | exactly the payload of a flagged packet is extracted, whatever its sequence number and trailing bytes; packets that end a transmission and packets without the flag yield nothing |
| `Recording.RecordCut` | mams-parser/main.ts:185-196 | the framing of one record |
| `Recording.RecordingRoundTrip` | mams-parser/main.ts:66-203 | the parser yields exactly the payloads of the flagged packets, in order; ends of transmissions and other packets are passed over, and no packet desynchronises the records behind it |
| `Recording.NegativeLengthStops` | mams-parser/main.ts:192-194 | a record with a negative length stops the parser with an exception, behind everything found before it |
| `Recording.NegativeFieldStops` | mams-parser/main.ts:134-136 | so does a packet whose length is in the negative form |
| `Maps.InsertMeans` | mumble/plugins/Module.h:23-39 | adding a region is as appending it, for the first region found at each address |
| `Maps.InsertOrdered` | mumble/plugins/Module.h:23-39 | adding a region keeps the order by address |
| `Maps.InsertedAre` | mumble/plugins/Module.h:23-39 | a set built from a list holds, in order, exactly the regions that come first with their address |
| `Maps.BaseIsLeast` | mumble/plugins/Module.cpp:11-18 | the base address is the address of a region, and the least; 0 without regions |
| `Maps.ReadUntilLoop` | mumble/plugins/mumble_positional_audio_utils.h:120-133 | the loop returns the characters before the first match, or fails at the end |
| `Maps.EatBlanksLoop` | mumble/plugins/mumble_positional_audio_utils.h:138-147 | the inverted loop, with the character put back |
| `Maps.LexLine` | mumble/plugins/HostLinux.cpp:51-103 | one line through the lexer's loops, with every way it can end early |
| `Maps.StoullReads` | mumble/plugins/HostLinux.cpp:51-64 | what an address field reads as, for any spaces, sign, prefix and digits and whatever follows: beyond 64 bits it raises, and a minus sign wraps around |
| `Maps.BasenameBehindLastSlash` | mumble/plugins/HostLinux.cpp:120-122 | the name has no slash and stands behind one |
| `Maps.NamedAreFiles` | mumble/plugins/HostLinux.cpp:115-122 | absolute paths that do not end in a slash name a module, the one of their base name; [heap] and the like, and folders, name none |
| `Maps.NoteLine` | mumble/plugins/HostLinux.cpp:105-131 | which module a line goes to |
| `Maps.ParseMaps` | mumble/plugins/HostLinux.cpp:46-134 | the line loop |
| `Maps.ReadsPrinted` | mumble/plugins/HostLinux.cpp:51-103 | a printed line is read back field by field |
| `Maps.NotesOwned` | mumble/plugins/HostLinux.cpp:105-131 | there is a module for each name that owns a line, and it holds the regions of its lines and of the anonymous lines behind them |
| `Maps.MapsRoundTrip` | mumble/plugins/HostLinux.cpp:46-134 | printing any entries and parsing them gives per name exactly those regions, ordered, first per address, the base address being the least |
| `SymbolLookup.WalkChain` | mumble/overlay_gl/init_unix.c:278-282 | one chain is walked from its start, each index once, to a match or to its end; once something is found, only its first symbol is looked at |
| `SymbolLookup.FindHashed` | mumble/overlay_gl/init_unix.c:272-283 | something is found exactly when a hashed symbol has the name, always the address of one; if not, every hashed symbol was examined |
| `SymbolLookup.FindLinear` | mumble/overlay_gl/init_unix.c:243-252 | the address of the first function of that name, if there is one |
| `SymbolLookup.LoadedElsewhere` | mumble/overlay_gl/init_unix.c:249-280 | the address found moves with the address the library is loaded at |
| `SymbolLookup.FindBothWays` | mumble/overlay_gl/init_unix.c:243-283 | exactly when both ways agree on finding something; they then return the same address whenever all symbols of that name have one |
| `RefCounting.Device.constructor` | mumble/overlay/d3d9.cpp:821-835 | a device starts with the count found by AddRef and Release |
| `RefCounting.Device.MyAddRef` | mumble/overlay/d3d9.cpp:577-609 | the whole new state and the count returned, to whichever side |
| `RefCounting.Device.MyRelease` | mumble/overlay/d3d9.cpp:646-705 | the same for Release, including the final one, which is forwarded |
| `RefCounting.Device.ReleaseAll` | mumble/overlay/d3d9.cpp:678-683 | what the overlay gives up comes off its own count only |
| `RefCounting.Device.EnterSection` | mumble/overlay/d3d9.cpp:17 | a section notes its thread and puts the one noted before aside |
| `RefCounting.Device.LeaveSection` | mumble/overlay/d3d9.cpp:18 | a section that ends notes again what it put aside, in whatever order sections end |
| `RefCounting.StepShift` | mumble/overlay/d3d9.cpp:577-705 | a call moves the count shown by what the application did, and by what was counted for the wrong side |
| `RefCounting.CallsAreConserved` | mumble/overlay/d3d9.cpp:577-705 | over any run while the device is registered, the two counts together move by the net of all calls, and none reaches the device |
| `RefCounting.GoneIsGone` | mumble/overlay/d3d9.cpp:609-705 | after the final release all calls reach the device |
| `RefCounting.SeenIsOffByDrift` | mumble/overlay/d3d9.cpp:577-705 | for any interleaving of both sides' calls, the application sees a plain counter of its own calls off by exactly the net of the calls counted for the wrong side |
| `RefCounting.TransparentIff` | mumble/overlay/d3d9.cpp:577-705 | it sees the plain counter, through the final forwarded release and beyond, if and only if these cancel at each of its calls |
| `RefCounting.NotedTellsIff` | mumble/overlay/d3d9.cpp:15-23 | the noted thread tells for every thread whether it runs overlay code exactly when only one does |
| `RefCounting.CountedRightIff` | mumble/overlay/d3d9.cpp:588-591 | between sections of one thread, a call is counted for the right side exactly when the overlay's are made inside a section of the calling thread and the application's are not |
| `RefCounting.OrderlyIsTransparent` | mumble/overlay/d3d9.cpp:577-705 | with sections that keep their promise the overlay is invisible, from a device's creation through its final release |
| `RefCounting.OutOfOrderSectionsHideCalls` | mumble/overlay/d3d9.cpp:15-23 | two threads whose sections end in the order they began: an AddRef of the application is then not counted |
| `RefCounting.SwapPresentDisconnectsIff` | mumble/overlay/d3d9.cpp:456-478 | presenting through a swap chain leaves the counts as they were, but disconnects the pipe exactly when the application holds at most one reference more than at creation |
| `RefCounting.SwapPresentShows` | mumble/overlay/d3d9.cpp:463-468 | meanwhile another thread of the application sees one reference too many |
| `RefCounting.DisconnectsIff` | mumble/overlay/d3d9.cpp:664-666 | which releases disconnect the pipe, whoever makes them; while calls are counted for the right side, exactly the application's that leave it at most one reference more than at creation |

## Left out

- `PipeSafety.FramingSafe`: assumes that the peer sends lengths in range, that no header is seen split behind its fourth byte, and that a connection is replaced only between two reads; `SplitKeepsSyncIff` and `ReconnectInSyncIff` show what happens otherwise.
- `Liveness.PiecesAreDispatched`: assumes that the peer sends whole frames, that every call succeeds with fewer than 2^31 bytes waiting, and that no header is seen split behind its fourth byte; `OutcomeIff`, `FailureLeaves` and `SplitKeepsSyncIff` say what happens otherwise.
- `Commands.CallObeys`: assumes the same, and that messages can be written; `CallUpOrEnded` and `UnacknowledgedEndsIff` are about failures.
- `OverlayPipe.Pipe.CheckMessage`: stops, with an ending of its own, where a length out of range would make the program write outside its buffer or dispatch a body of impossible length; the model does not follow the program further.
- `TextureCache.AlwaysFresh`: assumes that requests lie on the picture, that locks are granted just for parts that do, that shared memory changes between two frames only where the requests of the later one say so, and that it is fixed while a call copies from it.
- `Blitting.PackRows`: needs a box inside the picture, as the protocol promises; the code does not check this and would read outside the view.
- `Hooking.TrampolineFaithful`: speaks of straight-line runs, with jumps followed silently up to the first instruction that cannot be moved; the run must not lead back into the six overwritten bytes, where it would meet the hook itself, and the page must not hold the function.
- `Der.SequenceRoundTrip`: stays below 256^126 octets, where a strict reader accepts the length, and does not cover empty numbers, on which the code raises.
- `HookLifecycle.HookSound`: follows one hook to which nobody else writes; `HookSystem.HooksStand` is about all of them and everybody else.
- `HookLifecycle.CallThroughTrampoline`: the same; `HookSystem.CallsAreFaithful` drops the restriction.
- `HookSystem.HooksStand`: assumes that targets lie sixteen bytes apart and off the trampoline pages, that other writes avoid both, and that `reset` comes only while the original bytes are in place.
- `TextWrap.PerlCompatibleTextWrap`: says nothing where the loop does not end; `EndsIff` says exactly where that is.
- `RefCounting.SwapPresentDisconnectsIff`: takes it that `GetDevice` adds its reference through the hooked AddRef, like any other call.
- `SymbolLookup.FindHashed`: assumes a complete table whose chains end, and that no wanted symbol lies at address 0, which the code could not tell from nothing found.
- Win32, Direct3D, OpenGL and COM calls: present only as the answers they give (success, sizes, pages, bytes arriving) and as their effect on bytes, rectangles, textures and counters.
- Endless runs: an operation gets a finite list of answers, and where the list ends the receive loop finds nothing more to read and a chain of jumps is not followed further, so a cycle of jumps and a peer that never stops sending are cut off.
- Two connections at once, and threads inside one call of the pipe.
- The name in a SHMEM message, the event log, vertices and `setRect`: they do not change what is modelled.
- Shared memory written by Mumble while a call copies from it: the picture is fixed during one call.
- `HardHook::check` on a hook that was never set up reads through a null pointer in the code; the model does not call it there.
- Restoring the protection of pages, flushing the instruction cache, and `setupInterface`, which only looks up the function to hook.
- `myWin8AddRef` and `myWin8Release`, and the device caches of Direct3D 10 and 11: they depend on counts kept by the driver.
- Wrap-around of reference counts at 32 bits, and of row offsets in textures of 4 GiB or more.
- The rest of the wrapper's script: git and commit parsing.
- `dehexify` on text outside ASCII white space, and `\r\n` counted as two line ends where Python counts one; neither changes the bytes read.
- `derLength` on values that are not integers, which it refuses; the RFC 7919 primes themselves; the header and file writing around `writeCStr`.
- Opus decoding, timestamps, output back-pressure and files cut off while being read: the parser is given the whole file.
- A copy in Node that starts behind the end of the buffer: the model copies nothing, as current versions do; some versions raise an exception.
- How the text of `/proc/<pid>/maps` is obtained; modules are values in a map, as the container holds them in the code.
- Locating the hash tables, the strings and the symbols in a loaded library, and the version of `dlsym`.
- `Process::findPattern`, `exportedSymbol` of `ProcessLinux.cpp`, and the exclusion settings of `util.h`: they do not meet the specification one would give them, or would add only easy members.
- RPC, command-line and user-interface code of the study: plumbing without an invariant of its own.
