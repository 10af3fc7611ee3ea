# PiVision: a verified model

PiVision moves camera frames between processes and runs simple image algorithms on them. This project models the
protocols, state machines and numeric loops underneath and proves what they keep over all inputs, all interleavings
and all runs.

Two kinds of file sit side by side. Files of *steps* describe a whole system as a value with a function `Next`;
their results speak of `Run` over every sequence of steps (a step whose guard fails changes nothing). Files of
*classes* hold the source's fields, arrays, linked lists and loops; their methods are proved equal to the functions the
step models are built of. What these functions compute is stated a second time without them: turn by turn for the socket
loops, event by event for the handlers, pixel by pixel for the images, and with the bytes that travel written out.

| Component | Steps and values | Classes and loops |
|---|---|---|
| C thread pool | `ThreadPool.dfy` | `ThreadContext.dfy` |
| C++ connection | `Framing.dfy`, `Messages.dfy`, `AckProtocol.dfy`, `HeartbeatChain.dfy` | `PiVisionData.dfy`, `Socket.dfy`, `SocketLoops.dfy`, `EthTermConnection.dfy`, `EndToEnd.dfy` |
| C image normaliser | `Normalizer.dfy` | `ImageNormalizer.dfy` |
| Service registry and connect handshake | `Handshake.dfy` | `ServiceRegistry.dfy` |
| C frame pipeline | `FramePipeline.dfy`, `CameraFeed.dfy`, `AlgoJobs.dfy` | `Scheduler.dfy`, `FrameStages.dfy` |
| Numbered link to the Python client | `ImageDataLink.dfy` | `ImageDataEnds.dfy` |
| Grayscale stream, frame difference, discovery text | | `GrayscaleImageJob.dfy`, `ImageDiff.dfy`, `Discovery.dfy` |

`Bytes.dfy`, `Arithmetic.dfy` and `Images.dfy` hold little-endian words, facts about products, and the image sizes.

## What the code does not do

Some expectations fail. Each comes with the exact condition under which it holds.

- A pool with a cap can leave a job queued with every thread waiting: `ThreadPool.StrandingIffCapped` shows that some
  run does so for every non-zero cap, and none without a cap; `ThreadContexts.UndisturbedStrandsIff` gives the condition
  for a single call. The algorithm controller creates its pool with a cap of two (C/src/PiVisAlgoCtrl.c:66).
- So the algorithm can come to a standstill, with every later frame dropped, although the controller has one job
  outstanding at a time: `AlgoJobs.StarvationIffCapped` and `AlgoJobs.StarvedForever`.
- Between different processes, and as long as its peer sends plain payloads only, a connection that accepts a payload
  that is empty or opens with a control word never sends again: `AckProtocol.PermissionReturnsIffPlain`.
- A truncated message dispatched as a connection goes inactive need not be part of any payload
  (`EndToEnd.HeaderBytesAsData`). Whatever the bytes, the message of a pass is a prefix of its payload if and only if the
  header comes whole or not at all, or the turn behind it hands over nothing: `EndToEnd.PrefixIffHeaderSafe`.
- A failed send can leave a piece of the header with payload bytes behind it: `EndToEnd.CutIsPrefixIff`.
- A connection opened on a descriptor that another connection still uses gets a second heartbeat timer:
  `HeartbeatChain.LawIffUnused`.
- The co-moment of the normaliser can exceed 32 bits. The frames with at most k clipped pixels are all summed exactly if
  and only if k is at most 299010 (`Normalizer.ExactIffFewClipped`), and it takes pixels clipped on both sides
  (`Normalizer.OneSidedClippingIsExact`).
- A frame of a single gray value makes the normaliser divide by zero (`Normalizer.UniformFrameHasNoContrast`);
  `ImageNormalizers.ImageNormalizer.Exec` says exactly which frames do.
- A failed recv of frame data leaves the client's header and write positions as they are, so on the next connection it
  takes the 8-byte header for pixels, and every frame from there on is out of step: it is read between 8 bytes and a
  whole period early, has a header in it, and begins with zeros for what was blanked. The completed frames are the
  camera's, whatever it shows, if and only if none is completed after such a failure:
  `CameraFeed.AllShotsIffNoneAfterLoss`. `CameraFeed.FramesOfCamera` says what every frame of every run holds.
- On the numbered link, the Python client loses its place in the stream on an image of one byte
  (`ImageDataLink.LockStepIffNotOneByte`); a recv without bytes before the first acknowledgement is taken for an
  acknowledgement (`ImageDataLink.EmptyReceiveHarmlessIff`); and an acknowledgement that arrives in two pieces is lost
  unless it is the first (`ImageDataLink.SplitAckLostIff`), which ends the traffic.

## Model

| member | source | states |
|---|---|---|
| `ThreadPool.PoolConservation` | C/src/external/thread_pool.c:37-133 | In every interleaving jobs are popped in push order; submitted = queued + running + finished for each job, none run twice; a positive cap is never exceeded |
| `ThreadPool.NoStrandedJob` | C/src/external/thread_pool.c:74-101 | If the last submission claimed or created a thread (always so without a cap), a non-empty queue has a thread that pops again before it can wait |
| `ThreadPool.QuietRunsDrain` | C/src/external/thread_pool.c:74-101 | Once submissions stop, no run is longer than the work left; a run that can go no further has every thread waiting, and all jobs finished exactly when the queue was attended |
| `ThreadPool.StrandingIffCapped` | C/src/external/thread_pool.c:149-186 | Some run leaves a queued job that no thread will look for, if and only if maxThreads is not 0 |
| `ThreadPool.CappedSubmissionCanStrand` | C/src/external/thread_pool.c:82-91 | For any cap, the run that does so: the submission finds every thread between its empty pop and clearing its busy flag |
| `ThreadPool.WorkDecreases` | C/src/external/thread_pool.c:74-101 | Every worker step decreases two for each queued job plus the ranks of the thread positions |
| `ThreadPool.WorkKeepsAttention` | C/src/external/thread_pool.c:74-101 | Worker steps neither lose nor create a thread bound to look at a non-empty queue |
| `ThreadPool.StepPreservesInv` | C/src/external/thread_pool.c:74-186 | Every step of a worker or of the submitter keeps flags, job counts, cap and attention together |
| `ThreadContexts.ThreadContext.PushQueueItem` | C/src/external/thread_pool.c:37-57 | Appends at the end of the linked queue, which stays acyclic |
| `ThreadContexts.ThreadContext.PopQueueItem` | C/src/external/thread_pool.c:59-72 | Takes the oldest item, or none from an empty queue |
| `ThreadContexts.ThreadContext.CreateThread` | C/src/external/thread_pool.c:106-133 | Appends one busy thread record; numThreads stays the length of the acyclic list |
| `ThreadContexts.ThreadContext.MarkAvailable` | C/src/external/thread_pool.c:88-91 | Clears one busy flag and nothing else |
| `ThreadContexts.ThreadContext.ClaimIdleThread` | C/src/external/thread_pool.c:160-177 | Sets the busy flag of the first idle thread in list order, or finds that there is none |
| `ThreadContexts.ThreadContext.SchedJob` | C/src/external/thread_pool.c:149-186 | Queues the job, then claims, creates or leaves it, as `Sched` says |
| `ThreadContexts.UndisturbedSubmission` | C/src/external/thread_pool.c:149-186 | The steps of one call alone, a push and visits to thread records, agree with the undisturbed call on shared memory, outcome and claimed thread |
| `ThreadContexts.UndisturbedStrandsIff` | C/src/external/thread_pool.c:149-186 | These steps strand the queue exactly when no thread may be added and every thread stands between its empty pop and clearing its busy flag |
| `PiVisionBuffers.PiVisionData.Append` | C++/inc/pivision_events.h:147-157 | Appends all of the data or, if it does not fit, nothing |
| `PiVisionBuffers.PiVisionData.GetElementAt` | C++/inc/pivision_events.h:169-179 | The element, or 0 past the end |
| `Bytes.Le32RoundTrip` | C++/src/pivision_ethtermconnection.cpp:157-161 | A size word written byte by byte is read back as the same number |
| `Framing.FramesOfWire` | C++/src/pivision_ethtermconnection.cpp:236-253 | Parsing the frames of any sequence of payloads gives the payloads back, in order, with nothing left over |
| `Framing.FramesOfPrefix` | C++/src/pivision_ethtermconnection.cpp:236-253 | Cutting a stream short anywhere only drops frames at its end |
| `Framing.FramesOfWirePrefix` | C++/src/pivision_ethtermconnection.cpp:236-253 | However much of the wire arrives, it parses to the first of the payloads sent |
| `Framing.WireAppend` | C++/src/pivision_ethtermconnection.cpp:145-150 | One more send puts one more frame behind what is on the wire |
| `Messages.TruncationKind` | C++/src/pivision_ethtermconnection.cpp:257-282 | A truncated message is classified like the whole one if four bytes are there, and as data otherwise |
| `Messages.KindIs` | C++/src/pivision_ethtermconnection.cpp:257-282 | A payload is an acknowledgement, a heartbeat or a process id if and only if its first four bytes are EF BE AD DE, A1 BE A1 BE or 61 1D D6 61, and empty only if it has no bytes |
| `Messages.ClassifyIs` | C++/src/pivision_ethtermconnection.cpp:257-282 | The same for a message of which only the first bytes are there: all four bytes of the control word, and announced as four or more |
| `Messages.MessageEffects` | C++/src/pivision_ethtermconnection.cpp:284-321 | An acknowledgement gives the permission back, a process id says whether its four bytes are the own id, and no other message touches a flag |
| `Messages.PidOnce` | C++/src/pivision_ethtermconnection.cpp:361-371 | One heartbeat for each timeout; a client puts its process id in front of the first and sends it only then |
| `Messages.PidRoundTrip` | C++/src/pivision_ethtermconnection.cpp:304-308 | The process id put into a Pid message is read out of it |
| `EthTermConnections.Connection.Receive` | C++/src/pivision_ethtermconnection.cpp:85-143 | For every sequence of recv and SO_ERROR results: at most 11 turns for each byte; the bytes in stream order, all of them or with active false; it falls short only after an error, a stop or 11 empty turns in a row, and then on a turn that handed nothing over; no earlier turn found the connection inactive and handed nothing over |
| `SocketLoops.DrainWorks` | C++/src/pivision_ethtermconnection.cpp:94-142 | On a network that has bytes in one of any eleven turns, a receive gets all it asks for or all that is left |
| `SocketLoops.DrainIsFirstLeft` | C++/src/pivision_ethtermconnection.cpp:94-142 | The receive loop is left at the first turn with every byte there, or an empty turn with the connection inactive or the attempts used up, and never before |
| `SocketLoops.TurnTakes` | C++/src/pivision_ethtermconnection.cpp:96-121 | One turn takes what recv has, up to 4096 bytes, what is still needed and the end of the stream; nothing on an error |
| `EthTermConnections.Connection.SendPayload` | C++/src/pivision_ethtermconnection.cpp:166-226 | What is sent is a prefix of the buffer; the connection stays active if and only if no turn reported an error and a loop that was left had sent all of it; the loop is left at the first turn at which that is due |
| `EthTermConnections.Connection.SendHeader` | C++/src/pivision_ethtermconnection.cpp:152-164 | Sends a prefix of the little-endian size; active stays true if and only if no turn reported an error and a loop that was left had sent all four bytes |
| `EthTermConnections.Connection.Send` | C++/src/pivision_ethtermconnection.cpp:145-150 | A piece of the header and a piece of the payload; when it ends, active is kept if and only if no turn reported an error and both went out whole, which is one frame, however the sends are cut |
| `SocketLoops.TurnAccepts` | C++/src/pivision_ethtermconnection.cpp:181-211 | One turn sends what the peer accepts, up to 4096 bytes and what is left; nothing on an error or a failed send |
| `SocketLoops.AllAccepted` | C++/src/pivision_ethtermconnection.cpp:177-226 | On a network that accepts a byte in one of any eleven turns, eleven turns for each byte send everything |
| `EndToEnd.CutIsPrefixIff` | C++/src/pivision_ethtermconnection.cpp:145-150 | What a failed send leaves is a prefix of the frame for every payload of that size, if and only if the header went out whole or no payload byte did |
| `EthTermConnections.Connection.FillChunk` | C++/src/pivision_ethtermconnection.cpp:181-186 | The chunk is the next piece of the buffer |
| `EthTermConnections.Connection.DecodeLength` | C++/src/pivision_ethtermconnection.cpp:246-250 | The announced length from as many header bytes as arrived |
| `EthTermConnections.Connection.ReceiveFrame` | C++/src/pivision_ethtermconnection.cpp:240-253 | One header and its payload: the next frame of the stream exactly, or the connection is inactive |
| `EthTermConnections.Connection.ReadPid` | C++/src/pivision_ethtermconnection.cpp:304-308 | The process id in bytes 4 to 7 |
| `EthTermConnections.Connection.HandleMessage` | C++/src/pivision_ethtermconnection.cpp:255-322 | Flags, indications and the acknowledgement of one message of each kind, and whether sending that acknowledgement leaves the connection active |
| `EthTermConnections.Connection.Execute` | C++/src/pivision_ethtermconnection.cpp:236-323 | The messages handled are the frames at the front of the stream, without gaps, plus at most one truncated one, whose bytes are given, as the connection goes inactive; on a network that may have up to ten empty turns in a row every frame is handled and each data message acknowledged once |
| `EthTermConnections.TruncatedIsPrefix` | C++/src/pivision_ethtermconnection.cpp:255-292 | A truncated message with a whole header is a proper prefix of the next payload, dispatched exactly when it is shorter than four bytes or that payload is data |
| `EndToEnd.PrefixIffHeaderSafe` | C++/src/pivision_ethtermconnection.cpp:94-142 | For every script, place and length: the message of a pass is a prefix of its payload whatever the bytes are, if and only if the header receive took none or all of the header or the turn behind it hands over nothing |
| `EndToEnd.UnsafeShows` | C++/src/pivision_ethtermconnection.cpp:236-292 | Otherwise a stream exists whose header byte is dispatched as data |
| `EndToEnd.Transfer` | C++/src/pivision_ethtermconnection.cpp:85-323 | If every send succeeds, or the failing one is cut in its header or in its payload behind a whole header, the messages handled in full at the other end are the first of the payloads, whatever the network does there; on working networks all of them, dispatched in order and acknowledged once each |
| `EndToEnd.HeaderBytesAsData` | C++/src/pivision_ethtermconnection.cpp:236-292 | A network that cuts off a header makes the rest of that header appear as data |
| `EthTermConnections.Connection.HandleNewData` | C++/src/pivision_ethtermconnection.cpp:338-357 | Data goes out as one frame, is handed over within the process, or is dropped; and which |
| `EthTermConnections.Connection.HandleHeartbeat` | C++/src/pivision_ethtermconnection.cpp:361-379 | An active connection sends its process id once, a heartbeat, and re-arms; an inactive one records its last heartbeat |
| `AckProtocol.TokenConserved` | C++/src/pivision_ethtermconnection.cpp:284-357 | In each direction receivedAck + data under way or not yet acknowledged + acks travelling back is 1 in every reachable state |
| `AckProtocol.DeliveredIsSent` | C++/src/pivision_ethtermconnection.cpp:284-357 | Delivered payloads are the sent ones, in order, less at most the last; none is missing when sending is allowed again |
| `AckProtocol.PermissionReturnsIffPlain` | C++/src/pivision_ethtermconnection.cpp:255-357 | From every reachable state: after a payload is accepted, some continuation lets the connection send again exactly when that payload is not empty and does not open with a control word |
| `AckProtocol.PermissionLostForever` | C++/src/pivision_ethtermconnection.cpp:255-357 | Otherwise it may not send in any continuation in which its peer sends plain payloads |
| `AckProtocol.PermissionCanReturn` | C++/src/pivision_ethtermconnection.cpp:284-371 | From every state of the token law the permission comes back, by steps that each bring it closer |
| `AckProtocol.HomewardBound` | C++/src/pivision_ethtermconnection.cpp:284-371 | Every run of such steps is bounded by the messages ahead of the permission and the acknowledgements owed |
| `AckProtocol.DifferentProcessesUseTheWire` | C++/src/pivision_ethtermconnection.cpp:302-317 | Peers with different process ids never take the short cut within one process |
| `AckProtocol.ServerLearnsProcess` | C++/src/pivision_ethtermconnection.cpp:302-371 | The first heartbeat timeout of the client tells the server whether both are in the same process |
| `AckProtocol.ActKeepsInv` | C++/src/pivision_ethtermconnection.cpp:284-371 | Every step of either peer keeps both directions' tokens and streams |
| `HeartbeatChain.OneTimerEach` | C++/src/pivision_ethtermconnection.cpp:64-65 | With distinct descriptors, pending timers of a connection + lastHeartbeatReceived is 1 in every reachable state |
| `HeartbeatChain.DestructorRendezvous` | C++/src/pivision_ethtermconnection.cpp:68-83 | The destructor passes its wait exactly when no timer for it remains, and cannot miss the notification |
| `HeartbeatChain.InactiveForever` | C++/src/pivision_ethtermconnection.cpp:358-385 | active never returns to true |
| `HeartbeatChain.LawIffUnused` | C++/src/pivision_ethtermconnection.cpp:358-379 | Opening a connection keeps the law past the next timeout, whichever it is, exactly when no undrained connection uses the descriptor |
| `HeartbeatChain.FireEffect` | C++/src/pivision_ethtermconnection.cpp:358-379 | A broadcast timeout affects only the connection that armed it, which alone re-arms |
| `HeartbeatChain.LifeCycle` | C++/src/pivision_ethtermconnection.cpp:58-83 | From every lawful state: a new connection's timer re-arms while it is active; after that its destructor waits for exactly this timer and leaves no timer behind |
| `Normalizer.AverageNeverDrifts` | C/src/PiVisImageNormalizerAlgo.c:47-69 | Over every sequence of frames the never-reset average stays in 20..240 and within 1 of the last frame's floored mean |
| `Normalizer.CoTermExact` | C/src/PiVisImageNormalizerAlgo.c:72-76 | Every co-moment term, clipped pixel or not, is non-negative and equals its wrapped unsigned product |
| `Normalizer.CoMomentBound` | C/src/PiVisImageNormalizerAlgo.c:72-76 | A bound on the co-moment of every frame in its average, what flooring leaves over, and its pixels clipped low and high, with how many of each there is room for |
| `Normalizer.ExactIffFewClipped` | C/src/PiVisImageNormalizerAlgo.c:70-77 | Every frame with at most k clipped pixels is summed without wrapping, whatever was carried in, if and only if k is at most 299010 |
| `Normalizer.OneSidedClippingIsExact` | C/src/PiVisImageNormalizerAlgo.c:70-77 | A frame with pixels clipped on one side only is summed without wrapping, however many they are |
| `Normalizer.UnclippedMoment` | C/src/PiVisImageNormalizerAlgo.c:70-77 | Without clipping the sum is at most 12101 for each pixel, for every carried average |
| `Normalizer.DeviationOfUnclipped` | C/src/PiVisImageNormalizerAlgo.c:77-79 | A frame without clipped pixels has a standard deviation of at most 110 |
| `Normalizer.HalfAndHalfWraps` | C/src/PiVisImageNormalizerAlgo.c:70-77 | A frame half 0, half 255 exceeds 32 bits whatever was carried in |
| `Normalizer.TrackedExtremes` | C/src/PiVisImageNormalizerAlgo.c:93-101 | The tracked values bound every pixel of the rescaled image and occur in it |
| `Normalizer.ContrastStretch` | C/src/PiVisImageNormalizerAlgo.c:106-114 | No stretched value exceeds 255, pixels above the minimum keep their strict order, the brightest lands at 128 or more |
| `Normalizer.UniformFrameHasNoContrast` | C/src/PiVisImageNormalizerAlgo.c:83-106 | A frame of one gray value has no contrast to stretch, whatever was carried in |
| `Normalizer.RescaledIs` | C/src/PiVisImageNormalizerAlgo.c:84-91 | A clipped pixel c above the average a becomes the r with r·sd <= c - a < (r+1)·sd; up to the average it stays |
| `Normalizer.DeviationIs` | C/src/PiVisImageNormalizerAlgo.c:77-79 | The deviation is the floored root of the mean of the accumulated co-moment |
| `ImageNormalizers.ImageNormalizer.CreateGrayscaleImage` | C/src/PiVisImageNormalizerAlgo.c:22-45 | The counter loop computes the floored channel mean of every pixel |
| `ImageNormalizers.ImageNormalizer.ClipAndAverage` | C/src/PiVisImageNormalizerAlgo.c:49-69 | Every pixel clipped, and the average from the carried one |
| `ImageNormalizers.ImageNormalizer.MeasureDeviation` | C/src/PiVisImageNormalizerAlgo.c:70-79 | The floored root of the mean of the co-moment accumulated modulo 2^32, bounded on both sides by its square |
| `ImageNormalizers.ImageNormalizer.RescaleAndTrack` | C/src/PiVisImageNormalizerAlgo.c:83-104 | The rescaled image, every pixel above the average divided by the deviation and rounded down and the others kept, with its extremes; or exactly when the loop divides by zero |
| `ImageNormalizers.ImageNormalizer.StretchContrast` | C/src/PiVisImageNormalizerAlgo.c:106-114 | The stretched image; no store truncates |
| `ImageNormalizers.ImageNormalizer.Exec` | C/src/PiVisImageNormalizerAlgo.c:117-133 | The contrast-stretched output of the rescaled image, whose pixels satisfy the division bounds, with the carried average and the reset extremes; and exactly when a frame divides by zero |
| `ServiceRegistry.ServiceHandler.HandleEvent` | C++/src/pivision_servicehandler.cpp:16-86 | By event: providing a service that is not settled enters 0 and raises exactly its availability and ProvideService; subscribing raises ConnectReq and enters -1 exactly when there is no entry, and availability exactly when it is settled; a confirm enters its descriptor and announces it unless settled; a reject raises ServiceUnavailable; nothing else is raised or changed |
| `ServiceRegistry.EthTerm.HandleEvent` | C++/src/pivision_ethterm.cpp:16-68 | A listener job exactly for ProvideService, a discovery job exactly for ConnectReq; a confirm with the descriptor and a client connection exactly for the status Connected, a reject for the others, and nothing else |
| `ServiceRegistry.ConnectService.Execute` | C++/src/pivision_ethtermconnectservice.cpp:127-176 | At most five attempts and exactly one status, by whether one was answered and connecting worked |
| `ServiceRegistry.CastRoundTrip` | C++/src/pivision_ethterm.cpp:48-49 | A descriptor survives its way through uint32_t |
| `Handshake.RegistrySafety` | C++/src/pivision_servicehandler.cpp:20-74 | Over every run the unchecked lookup succeeds and no confirm carries -1 for an unsettled service, each service is requested and provided at most once, and availability is announced for exactly the entries that are not -1 |
| `Handshake.SettledForever` | C++/src/pivision_servicehandler.cpp:20-74 | A local or connected entry never changes again |
| `Handshake.EnteredIff` | C++/src/pivision_servicehandler.cpp:20-60 | Over every run, the services provided to the network are exactly those a ServiceProvided found unsettled, and the services requested exactly those a SubscribeService found without an entry |
| `Handshake.ListenersAreProvided` | C++/src/pivision_ethterm.cpp:20-26 | Over every run, listeners of a service + its ProvideService in flight is 1 if it was provided, and 0 otherwise |
| `Handshake.DiscoveryConnects` | C++/src/pivision_servicehandler.cpp:61-74 | From any state in which a discovery job of an unsettled service connects: the entry holds its descriptor, a client connection runs and availability is announced |
| `Handshake.DiscoveryFails` | C++/src/pivision_servicehandler.cpp:75-81 | When the job fails, ServiceUnavailable is raised and nothing else changes |
| `Handshake.ProvisionListens` | C++/src/pivision_servicehandler.cpp:20-37 | From any state, a service provided first is announced and gets a listener, which accepts connections |
| `Handshake.LostConnection` | C++/src/pivision_ethtermconnection.cpp:325-331 | A client connection that ends is told as unavailable while its entry stays as it is |
| `Handshake.OutcomeConservation` | C++/src/pivision_ethterm.cpp:34-62 | Confirms + rejects + statuses in flight = finished discovery jobs + ended connections; client connections started = confirms |
| `Handshake.AtMostOneClientPerService` | C++/src/pivision_ethterm.cpp:46-59 | A service gets at most one discovery report and one client connection in a whole run |
| `Handshake.RegistryStep` | C++/src/pivision_servicehandler.cpp:20-80 | What one event may change in the registry and must raise |
| `Scheduler.CallbackList.RegisterCallback` | C/src/PiVisScheduler.c:13-36 | Appends one callback to the acyclic list |
| `Scheduler.CallbackList.RunPass` | C/src/PiVisScheduler.c:44-50 | Every callback once, in the order of registration |
| `Scheduler.Startup` | C/src/main.c:10-28 | The seven callbacks in the order of the init calls |
| `FramePipeline.EveryFrameOfferedOnce` | C/src/PiVisImageProvider.c:15-45 | Over every run, completed frames = frames offered, in order and each once, plus at most one in hand-over; the write position stays in the buffer and is 0 whenever a frame is copied |
| `FramePipeline.OfferedInTheNextPass` | C/src/PiVisAlgoCtrl.c:27-51 | A frame handed over in one pass is offered whole in the next |
| `FramePipeline.FramesAreTheStream` | C/src/PiVisClient.c:98-140 | Over every run, the completed frames and the partial one are the bytes received in place of frame data, cut at the image size, with the partial frame before a failed recv replaced by zeros |
| `FramePipeline.FrameGoesThrough` | C/src/PiVisClient.c:98-140 | From any reachable state at the start of a frame, 8 header bytes and 921600 bytes complete the frame, and it is offered in the next pass with the client back at the start of one |
| `FramePipeline.FirstFrame` | C/src/PiVisClient.c:53-131 | A run from the start leaves discovery, connects, completes a frame and has it scheduled |
| `FramePipeline.HeaderComesFirst` | C/src/PiVisClient.c:98-109 | No frame data is taken while one of the 8 header bytes is missing |
| `FramePipeline.ClientMoves` | C/src/PiVisClient.c:53-140 | When each of the five states is left, and for which |
| `CameraFeed.FramesOfCamera` | C/src/PiVisClient.c:98-140 | Over every run with a camera that sends header and frame over and over: the frames completed before the first failed recv of frame data are the camera's, in order from the first; each later one is the camera's bytes read a known number of bytes early, with zeros for what was blanked |
| `CameraFeed.AllShotsIffNoneAfterLoss` | C/src/PiVisClient.c:110-130 | Every completed frame is one the camera took, whatever the camera shows, if and only if no frame is completed after a failed recv of frame data |
| `CameraFeed.RunShape` | C/src/PiVisClient.c:98-140 | What the frames hold does not steer the client |
| `CameraFeed.CameraSends` | Python/PiVisServer.py:81-87 | What travels on a connection, byte by byte: eight bytes with the size and resolution, then the frame, over and over |
| `FramePipeline.OneJobAtATime` | C/src/PiVisAlgoCtrl.c:39-49 | At most one scheduled frame is unfinished |
| `FramePipeline.AlgoLooks` | C/src/PiVisAlgoCtrl.c:27-51 | A completed result is sent at every look that finds one; a whole frame is scheduled unless a job is still running, and dropped otherwise |
| `AlgoJobs.FlagIsOutstanding` | C/src/PiVisAlgoCtrl.c:27-51 | Over every interleaving of controller and pool at most one job is queued or running uncompleted, and ALGO_RUNNING says whether one is; scheduled frames = jobs submitted = completed + outstanding |
| `AlgoJobs.StarvationIffCapped` | C/src/PiVisAlgoCtrl.c:39-66 | Some run leaves the controller waiting for a job that no thread will take, if and only if its pool has a cap |
| `AlgoJobs.StarvedForever` | C/src/PiVisAlgoCtrl.c:27-51 | From there every further frame is dropped and nothing completes |
| `AlgoJobs.WaitingForNobody` | C/src/external/thread_pool.c:74-101 | With every thread waiting, ALGO_RUNNING is set exactly in such a state |
| `AlgoJobs.ControllerRun` | C/src/PiVisAlgoCtrl.c:27-51 | The controller's run is a look and an offer with completions before either |
| `FramePipeline.PassKeepsInv` | C/src/main.c:14-28 | One pass in the fixed callback order keeps hand-over and accounting together |
| `FrameStages.CameraClient.StateConnected` | C/src/PiVisClient.c:98-131 | Header in pieces, frame data, lost connection and completed frame, as the pipeline model has them |
| `FrameStages.CameraClient.Run` | C/src/PiVisClient.c:194-197 | One call of the current state's function |
| `FrameStages.CameraClient.Receive` | C/src/PiVisClient.c:216-227 | Copies from the write position on in the last state only |
| `FrameStages.ImageProvider.Run` | C/src/PiVisImageProvider.c:15-18 | The finished frame whole, or nothing |
| `FrameStages.ImageProvider.GetPixelData` | C/src/PiVisImageProvider.c:30-45 | As many bytes as are held and asked for |
| `FrameStages.AlgoCtrl.Run` | C/src/PiVisAlgoCtrl.c:27-51 | Sends a completed result, then schedules or drops the frame on offer |
| `FrameStages.RunPass` | C/src/PiVisScheduler.c:44-50 | Running the registered callbacks, in the order in which main registers them, refines one step of the pipeline model |
| `FramePipeline.PassInOrder` | C/src/main.c:14-28 | The callbacks in registration order, one by one, make up one step of the pipeline model |
| `ImageDataLink.LinkLockStep` | C/src/PiVisImageDataTL.c:34-97 | Without one-byte images: in SEND_DATA nothing is under way and the frame numbers agree; in WAIT_FOR_ACK exactly one image, pending or travelling ack exists and belongs to the sender's number; through every wrap at 256 |
| `ImageDataLink.LockStepIffNotOneByte` | Python/PiVisClient.py:77-104 | All runs that send only given images stay in lock-step and deliver them, if and only if none of them is one byte long |
| `ImageDataLink.ImagesArrive` | Python/PiVisClient.py:77-104 | Without one-byte images the client has every image sent, in order, less at most the last |
| `ImageDataLink.CallsAccounted` | C/src/PiVisImageDataTL.c:67-97 | For all images, send calls = frames sent + both drop counters, modulo their width |
| `ImageDataLink.DropCounters` | C/src/PiVisImageDataTL.c:67-97 | Over every run, one counter counts the calls made while an acknowledgement was awaited, the other those that found no client, modulo 2^32, and the images of all other calls are sent |
| `ImageDataLink.RoundTrip` | C/src/PiVisImageDataTL.c:34-97 | From lock-step, sending, taking, acknowledging and accepting one image delivers it and returns both ends to lock-step under the next number |
| `ImageDataLink.AckBytes` | Python/PiVisClient.py:96-101 | The nine bytes of an acknowledgement |
| `ImageDataLink.EmptyReceiveHarmlessIff` | C/src/PiVisImageDataTL.c:34-46 | A receive of no bytes leaves the sender as it is exactly when an acknowledgement was accepted before |
| `ImageDataLink.SplitAckLostIff` | C/src/PiVisImageDataTL.c:34-46 | An acknowledgement received in two pieces leaves the sender where it was exactly when one was accepted before; the first one is accepted on its first piece |
| `ImageDataLink.SplitAckEndsTraffic` | C/src/PiVisImageDataTL.c:34-97 | After such a loss the link sends no image ever again |
| `ImageDataLink.AlignedIffNotOneByte` | Python/PiVisClient.py:80-90 | The client takes the sender's frame off the stream exactly when the image is not one byte long |
| `ImageDataLink.StepKeepsInv` | C/src/PiVisImageDataTL.c:34-97 | Every step of either end, but sending a one-byte image, keeps the lock-step, the numbering and the counters |
| `ImageDataEnds.ImageDataTL.Run` | C/src/PiVisImageDataTL.c:34-46 | What is received overwrites the front of the static buffer; sending re-opens and the number goes up exactly when the last byte is the current number; -1 changes nothing |
| `ImageDataEnds.ImageDataTL.SendGrayscaleImage` | C/src/PiVisImageDataTL.c:67-97 | One frame with the little-endian size when ready and connected; otherwise one drop counter goes up: the first while waiting, the second while unconnected |
| `ImageDataEnds.PiVisClient.ReceiveInternal` | Python/PiVisClient.py:65-75 | The next bytes of the stream in order, however the packets are cut |
| `ImageDataEnds.PiVisClient.ReceiveImage` | Python/PiVisClient.py:80-104 | One image off the stream, stored behind the type byte 0 unless it is empty, and acknowledged with the client's number |
| `GrayscaleImageJob.ExtractImageProperties` | C++/src/pivision_grayscaleimagejob.cpp:13-32 | The two little-endian sizes, with 0 for missing bytes |
| `GrayscaleImageJob.ConvertPixels` | C++/src/pivision_grayscaleimagejob.cpp:54-80 | The byte loop fills the buffer with one shade for each whole pixel until it is full |
| `GrayscaleImageJob.Execute` | C++/src/pivision_grayscaleimagejob.cpp:34-80 | The output is the gray image of the input, for every input |
| `GrayscaleImageJob.OutputLength` | C++/src/pivision_grayscaleimagejob.cpp:54-80 | min(x·y, (size-4)/3) bytes |
| `GrayscaleImageJob.AnnouncedSize` | C++/src/pivision_grayscaleimagejob.cpp:13-52 | An image that announces x times y pixels, each in two bytes from the least on, has min(x·y, whole pixels) gray bytes |
| `GrayscaleImageJob.ShadeRule` | C++/src/pivision_grayscaleimagejob.cpp:56-79 | Each gray byte is a third, rounded down, of the byte before and its pixel's three colors, kept between 1 and 254 |
| `GrayscaleImageJob.CarryBrightens` | C++/src/pivision_grayscaleimagejob.cpp:56-79 | Every byte is in 1..254 and exceeds the clamped mean of its own pixel by 0 to 85 |
| `GrayscaleImageJob.PastIsForgotten` | C++/src/pivision_grayscaleimagejob.cpp:56-79 | Images that agree from pixel j on have outputs at most 1 apart from pixel j+5 on |
| `ImageDiff.ImageDiffAlgo.MarkChanges` | C/src/PiVisImageDiffAlgo.c:25-62 | The one-pass counter loop computes every output pixel |
| `ImageDiff.ImageDiffAlgo.Exec` | C/src/PiVisImageDiffAlgo.c:13-74 | Output and retained frame after each frame |
| `ImageDiff.LatestOutput` | C/src/PiVisImageDiffAlgo.c:25-67 | After two or more frames a pixel is 255 exactly when its three channels differ by more than 100 in all from the frame before or are all 255, and otherwise is their floored mean |
| `ImageDiff.FirstFrameSendsNothingNew` | C/src/PiVisImageDiffAlgo.c:25-67 | The first frame is retained and marks nothing |
| `Discovery.PrintOfParse` | C++/src/pivision_ethtermconnectservice.cpp:40 | Printing undoes parsing on exactly the digit strings without superfluous zeros |
| `Discovery.ParseOfPrint` | C++/src/pivision_ethtermservicelistener.cpp:186-187 | Parsing undoes printing, whatever non-digit text follows |
| `Discovery.AtoiReads` | C++/src/pivision_ethtermservicelistener.cpp:186-187 | What atoi makes of white space, a sign, digits and anything behind them, against the value by decimal places |
| `Discovery.RequestFindsItsService` | C++/src/pivision_ethtermservicelistener.cpp:176-197 | For s below 2^31 the listener of t answers the request printed for s exactly when s = t, with any non-digit tail, cut or not |
| `Discovery.AnsweredIsRequest` | C++/src/pivision_ethtermservicelistener.cpp:176-197 | An answered message with a canonical number below 2^31 is the request of that service |
| `Discovery.TurnReadsPast` | C++/src/pivision_ethtermservicelistener.cpp:165-205 | One call reads past unknown messages up to the first other packet, and answers that one or nobody |
| `Discovery.EveryRequestAnsweredOnce` | C++/src/pivision_ethtermservicelistener.cpp:165-205 | Over any stream of datagrams each request for the service is answered once, in order, and nothing else |
| `Discovery.ServiceListener.HandleNewServiceDiscoveryRequests` | C++/src/pivision_ethtermservicelistener.cpp:165-205 | One call reads past unknown datagrams to the first that decides |

## Left out

- EthTermConnections.Connection.SendPayload: does not state that the loop ends, because a reported socket error is not
  counted as an attempt and a send of zero bytes resets the count; a bound on the turns is a parameter, and eleven for
  each byte suffice on a working network.
- EthTermConnections.Connection.Receive: counts exactly for every announced length, while the source's signed counter
  is undefined in C++ from 2^31 bytes on.
- ImageDataEnds.PiVisClient.ReceiveInternal: does not state that the loop ends, because the source retries an empty
  recv for ever; a bound on the calls is a parameter, and enough calls that bring bytes suffice.
- PiVisionBuffers.PiVisionData.Append: requires that size and dataSize add up to less than 2^32; beyond that the
  source's sum wraps and its copy overruns the buffer.
- FrameStages.CameraClient.StateConnected: no recv hands over the end of a header together with bytes behind it, where
  the source could write past its 8-byte header buffer.
- FrameStages.CameraClient.Run: the same for the state in which headers are received.
- FrameStages.CameraClient.Receive: requires that no more is asked for than is left behind the write position; the
  source would read past its buffer. `FramePipeline.EveryFrameOfferedOnce` shows that no run does so.
- FrameStages.ImageProvider.Run: requires the write position 0 for a finished frame, for the same reason.
- ServiceRegistry.ConnectService.Execute: the wait between two discovery attempts is taken to end.
- GrayscaleImageJob.Execute: the product of the two sizes is computed in a C int, so it is required to be below 2^31.
- ImageNormalizers.ImageNormalizer.Exec: a division by zero, undefined in C, ends the model's call with `ok` false.
- Discovery.RequestFindsItsService: `atoi` is undefined for numbers that do not fit an int, so s is below 2^31; the
  listener's number t is any 32-bit word.
- `destroy_thread_pool`, which frees thread records that workers may still use, and spurious wake-ups: the pool and
  heartbeat results cover runs without them.
- Sockets beyond recv, send and SO_ERROR: set-up, select, accept, multicast membership, signals and address lookup.
  recv, send and SO_ERROR are arbitrary scripts.
- JobDispatcher is not part of this model: each listener's handlers run one at a time, each job runs once and each timer
  fires once.
- Two connections in one process hand data over directly; the ack results concern different processes or the time
  before the Pid message arrives, and two C++ peers that both stay active.
- The Java and Python peers of the C++ connection acknowledge heartbeats as well, so the token law is not theirs.
- `SERVER_send` resends from the start of the buffer after a partial send; the numbered link assumes complete sends.
  Its step model takes acknowledgements whole; those that arrive in two pieces are treated separately.
- Reconnection on the numbered link.
- What a running algorithm reads while the controller refills its input buffer.
- The terminator written behind a discovery message that fills the 50-byte buffer, and before one that failed to arrive.
- GUIs, the camera driver, throughput meters and logging; PiVisControl, which receives camera commands; PiVisDiag, which
  sends the number of dropped frames; PPMCreator, which turns an image into PPM text and bytes; the unique id and the
  grayscale job counter, which count up.
