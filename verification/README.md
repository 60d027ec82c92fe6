# Ferry: a model of its transfers, its session and its small caches

Ferry moves files and notifications between a Linux service (Python) and an Android app (Kotlin) on one network.
This project models the parts that carry state from one step to the next, and proves what they keep.

* **Transfers.** `ChunkCodec` is the binary chunk frame on both sides. `IncomingTransfer` states each step of the Linux
  receiver on a map from paths to bytes and on the bytes its hash has absorbed; `IncomingTransferClass` is the object that
  performs them. `OutgoingTransfer` is the Linux sender. `LinuxDelivery` runs them together with an honest sender.
  `AndroidReceiver`, `AndroidSender` and `AndroidResume` do the same for the phone, and `CrossDelivery` lets each platform
  receive what the other one streams. `TransferProtocol` and
  `TransferCompletion` are `send_file` and the receiving session loop over two FIFO channels, with users, timers, disk
  errors and disconnects between any two atomic steps; `TransferRefusal` says what a refusal or a cancellation does there.
* **The session.** `SecureChannel` derives keys by role and frames plaintexts with counter nonces; the network may do
  anything but forge. `SessionTraffic` adds the tasks that share a session on Linux, `AndroidThreads` the threads that share
  one on Android. `Pairing` and `PairingAndroid` are the two variants of the PAIR_DECISION exchange, `SessionLifecycle` one
  connection from start to end. `ControlFrames` is the deframing of control messages, `Hkdf` the Android key derivation.
* **Small structures against simple ones.** `TokenBucket` against counting in windows; `Recency`, used by
  `NotificationIds` and `Deduplicator`, against a map that forgets nothing; `InterruptedStore`, `InterruptedStoreRuns` and
  `InterruptedStoreClass` against a plain map, and `InterruptedStoreRepair` over damaged preferences; `BurstBuffer` and
  `BurstSteps` against a ledger of what became of every notification.

An object that updates its fields is a class that keeps an invariant; its methods say what they promise and are proved
against functions on values, about which the laws are lemmas over every run. What the operating system decides (whether a write, a flush, a rename or a re-read
succeeds, and how much of it) is a parameter of each step, as are the clock, the hash, HMAC, the cipher and the JSON codec.
SHA-256 is an arbitrary function: a lemma that needs two byte strings not to collide says so for those two. The cipher is
ideal for the keys and 12-byte nonces in play: a sealed text opens under exactly the key and nonce it was sealed with.

`dafny verify dfyconfig.toml` checks everything.

## What does not hold

Some properties one would expect are false of the code. Each is kept as the code has it, with an input that shows it
and the exact condition under which it holds.

* `finalise` on an interrupted Linux transfer compares the hash of all received bytes, then renames a file that was
  truncated: `InterruptedFinalisePublishesAStub`, `InterruptedPublishesIffNothingCut`, `PublishedIffSizeMatches`. This
  concerns users of the class `IncomingTransfer`: the service's own session loop cancels its transfers when a session ends
  and never calls `interrupt`.
* The Linux receiver can prepare a resume only for chunks of 65536 bytes, since the request validates itself against that
  constant: `ResumeRequestArithmetic`.
* `begin` on Android keeps a left-over .part file in front of the new bytes: `LeftoverPartIsPublished`,
  `PublishesLeftoverPart`.
* An Android sender can resume only from a record that `sendFile` saves when it saw the cancel flag and then finds it
  reset. A broken socket throws past that place, and the end of one resume deletes the record, so the next request is
  refused and the receiver deletes its .part file: `SecondResumeIsRefused`, `RefusalDeletesThePart`, `NoResumeAfterwards`,
  `AtMostOneResume`. It also refuses when it can no longer read what is behind the content URI, and it narrows a resume
  offset to 32 bits, so a transfer interrupted beyond 2 GiB is refused: `AcceptedIffReadableAndFits`,
  `AskingIsAcceptedIffReadableAndFits`. Asking twice before an answer deletes the .part file as well:
  `SecondAcceptDeletesThePart`.
* Nothing checks the length of a received nonce, and the salt joins the two nonces without one. Two ends with crossed keys
  saw each other's handshakes exactly if the received nonces have 16 bytes: `LongNonceIsNotNoticed`,
  `CrossedKeysMeanSameHandshakes`.
* Android reads the send counter, moves it and writes the frame in separate steps, so two threads can put frames on the
  wire out of order or give two frames one number: `AndroidCanStall`, `AndroidCanRepeatANumber`, `NumbersDistinctIffApart`,
  `AndroidDeliversIff`.
* The documentation asks for Accept on both devices, but the phone needs no decision of its user: `PhoneUserIsNotNeeded`,
  `TrustNeedsTheLinuxUser`.
* A connection cancelled twice at the wrong moments is left in a state that is neither DISCONNECTED nor FAILED:
  `DoublyCancelledSessionStaysOpen`, `RunHandshake`.
* Ids with a comma, or blank ones, are lost from the index of interrupted transfers: `SavedIsListedIffGood`,
  `SurvivesIffGood`.
* Titles with a zero byte can make different notifications look like repeats: `ShiftedZeroByteIsHeldBack`,
  `HeldBackIffRepeated`.

## Model

| member | source | states |
|---|---|---|
| ChunkCodec.DecodeEncode | linux/src/ferry_linux/core/transfer.py:263-320 | a chunk can be encoded if and only if its number is below 2^32 and its data at most 65536 bytes; decoding the frame (with anything after it) then gives the same triple, and the frame is recognised as a chunk |
| ChunkCodec.EncodeDecode | linux/src/ferry_linux/core/transfer.py:282-315 | re-encoding whatever the decoder accepts gives exactly its first 28 + length bytes |
| ChunkCodec.JsonIsNotAChunk | linux/src/ferry_linux/core/transfer.py:318-320 | a plaintext that starts with `{` is neither taken for a chunk nor decoded by either side |
| ChunkCodec.MagicDecides | linux/src/ferry_linux/core/transfer.py:318-320 | the four bytes FYCH alone decide that a plaintext is taken for a chunk, however short it is, and neither decoder accepts anything else |
| ChunkCodec.DecodersAgree | android/app/src/main/kotlin/dev/ferry/app/transfer/FerryTransferReceiver.kt:57-84 | Linux and Android accept the same plaintexts and read the same id and data; the numbers agree exactly when the top bit is clear |
| ChunkCodec.AndroidToLinux | android/app/src/main/kotlin/dev/ferry/app/transfer/FerryTransferClient.kt:56-71 | Android encodes exactly the data of at most 65536 bytes, and what it encodes, Android and (for non-negative numbers) Linux decode to the same triple |
| IncomingTransferClass.Incoming.Begin | linux/src/ferry_linux/core/transfer.py:433-467 | a transfer begins if and only if it is IDLE or REQUESTED, the staging directory exists, the name is safe and the file opens; it then starts from an empty part file, whatever was left there; otherwise the disk is left alone and the state is the one each failure leads to |
| IncomingTransferClass.Incoming.ReceiveChunk | linux/src/ferry_linux/core/transfer.py:469-507 | accepts exactly the next chunk of this transfer, and then part file, hash and counters grow by it; if it cannot be written the transfer fails and its part file goes; any other chunk changes nothing; the relation of hash and disk is kept |
| IncomingTransferClass.Incoming.Finalise | linux/src/ferry_linux/core/transfer.py:509-546 | True exactly if the announced hash is met while receiving and flush and rename succeed: then the part file is the destination, or the alternative if the destination was taken, and nothing else on disk has changed; False exactly if the hash is wrong in a state that is not final: then the part file is gone |
| IncomingTransferClass.Incoming.Interrupt | linux/src/ferry_linux/core/transfer.py:548-662 | a transfer that was receiving is INTERRUPTED exactly if it has a size and something of it arrived, and otherwise FAILED; what is kept is what was flushed, down to whole chunks if the truncate worked, with counter and next number to match; from RESUMING it fails, a final state stays |
| IncomingTransferClass.Incoming.HashFile | linux/src/ferry_linux/core/transfer.py:1098-1104 | hashing in blocks of 64 KiB absorbs exactly the bytes of the file, or of the part of it that could be read |
| IncomingTransferClass.Incoming.PrepareResumeRequest | linux/src/ferry_linux/core/transfer.py:710-801 | a request is made if and only if the transfer is INTERRUPTED, its part file is nonempty, not longer than announced, in whole chunks, the chunk size is 65536 and the caller's expectations agree; it names the length, the chunk index and the hash of the part file on disk |
| IncomingTransferClass.Incoming.Resume | linux/src/ferry_linux/core/transfer.py:803-879 | succeeds if and only if the transfer is INTERRUPTED or RESUME_REQUESTED, its part file is there and can be opened; it then counts the whole part file and has hashed exactly that file if it could be read; otherwise it is FAILED, or unchanged from any other state |
| IncomingTransferClass.Incoming.Cancel | linux/src/ferry_linux/core/transfer.py:881-908 | from every state the transfer is over and its part file gone, unless it cannot be unlinked; no other file is touched |
| IncomingTransfer.RelatedRun | linux/src/ferry_linux/core/transfer.py:469-894 | after any sequence of calls, whatever the peer sends and the disk does: the hash has absorbed exactly the .part bytes in TRANSFERRING (and in RESUMING if re-reads were complete), and at least them in INTERRUPTED |
| IncomingTransfer.FinaliseIsSafe | linux/src/ferry_linux/core/transfer.py:509-546 | after any sequence of calls with complete re-reads, `finalise` returns True only if the published file has the announced hash (so is the announced file, unless they collide); no other file changes; a file is overwritten only if both names were taken |
| IncomingTransfer.FinaliseDecides | linux/src/ferry_linux/core/transfer.py:509-546 | for every state and disk: when `finalise` returns True, when False, when it raises, and in each case which files change: only the part file on a wrong hash, part file and destination when it renames, none otherwise |
| IncomingTransfer.PublishedIffLengthsAgree | linux/src/ferry_linux/core/transfer.py:509-662 | whenever `finalise` renames, also in INTERRUPTED, the published file is what was hashed if and only if the .part file is as long as what was hashed; in INTERRUPTED the call then raises |
| IncomingTransfer.PublishedIffSizeMatches | linux/src/ferry_linux/core/transfer.py:509-662 | in terms a caller can look up: the published file is the announced source if and only if the .part file has the announced size (the hashed bytes and the source not colliding) |
| IncomingTransfer.InterruptedPublishesIffNothingCut | linux/src/ferry_linux/core/transfer.py:524-655 | `finalise` after an interrupt publishes what was received if and only if the interrupt cut nothing: no bytes lost by a failed flush, and a length in whole chunks, or unknown, or a truncate that failed |
| IncomingTransfer.InterruptedFinalisePublishesAStub | linux/src/ferry_linux/core/transfer.py:524-546 | a concrete run in which the published file is not what was hashed: three bytes in chunks of two, an interrupt, then `finalise` |
| IncomingTransfer.StatesFollowTheTable | linux/src/ferry_linux/core/transfer.py:116-150 | every call except `cancel` moves inside the transition table and leaves final states alone; `cancel` always ends in CANCELLED |
| OutgoingTransfer.ChunksCoverTheRest | linux/src/ferry_linux/core/transfer.py:1035-1085 | the chunks from an index on carry exactly the rest of the file, are numbered consecutively, and are chunk_count minus the index many |
| OutgoingTransfer.Outgoing.StreamChunks | linux/src/ferry_linux/core/transfer.py:1024-1089 | the frames streamed decode to the first chunks owed from the index; they are all of them unless the file cannot be opened, a cancel or a failing read came first, or the number would exceed 32 bits, and the end, the state and the count of bytes say exactly which |
| LinuxDelivery.Delivery | linux/src/ferry_linux/core/transfer.py:469-879 | over every run with an honest sender, any cut into chunks, interrupts and resumes: the .part file is a prefix of the source, and once the last byte is in, `finalise` returns True and publishes the source if and only if the last re-read was complete |
| LinuxDelivery.HonestChunkAdvances | linux/src/ferry_linux/core/transfer.py:469-507 | in every honest state that receives, the next piece of the source is taken in, so the .part file grows to the sender's place; if it cannot be written the transfer fails and no other file changes |
| LinuxDelivery.StreamDelivers | linux/src/ferry_linux/core/transfer.py:1003-1089 | from a 64 KiB boundary of any honest run, receiving everything the sender streams from that index makes `finalise` publish the source |
| LinuxDelivery.StartDelivers | linux/src/ferry_linux/core/transfer.py:433-546 | and from the very start: a transfer that begins and receives everything the sender streams publishes the source |
| LinuxDelivery.InterruptArithmetic | linux/src/ferry_linux/core/transfer.py:628-662 | after an interrupt that ends in INTERRUPTED: counter = length of the .part file = next number times chunk size, less than one chunk given up; if the truncate failed, no resume can be prepared |
| LinuxDelivery.ResumeRequestArithmetic | linux/src/ferry_linux/protocol/models.py:268-309 | an aligned, nonempty .part file yields a resume request if and only if the chunk size is 65536; its offset is the length of the file and where the sender seeks, and the chunks left are chunk_count minus the index |
| LinuxDelivery.RestartResumes | linux/src/ferry_linux/core/transfer.py:803-879 | a restart for which a request exists resumes exactly if the part file can be reopened, with the sender at the end of the part file and, if that could be re-read, nothing skipped |
| LinuxDelivery.InterruptedTransferResumes | linux/src/ferry_linux/core/transfer.py:548-879 | an honest transfer that is interrupted after at least one whole chunk and restarted, nothing failing, resumes behind the whole chunks that had arrived |
| LinuxDelivery.InterruptedTransferDelivers | linux/src/ferry_linux/core/transfer.py:548-1089 | and receiving the rest of the sender's stream from there makes `finalise` publish the source |
| TransferProtocol.SuccessMeansPublished | linux/src/ferry_linux/core/service.py:507-628 | in every interleaving of both services, users, timers, disk errors and disconnects, `send_file` returns True only if the receiver's user accepted and `finalise` published bytes with the hash `build_metadata` computed |
| TransferRefusal.NothingWithoutConsent | linux/src/ferry_linux/core/service.py:524-559 | in every interleaving: a sender that streams, has completed or waits for the result, and every chunk on its way, needed the receiving user to accept; until then the receiver's disk does not change |
| TransferRefusal.RefusalIsFinal | linux/src/ferry_linux/core/service.py:1421-1436 | if the receiver lets go of the transfer before its user has accepted (rejection, timeout, cancel from either side, end of the connection), then whatever follows `send_file` never streams and never returns True, and the receiver's disk stays as it was |
| TransferRefusal.WithdrawalDiscards | linux/src/ferry_linux/core/service.py:1736-1770 | whatever makes the receiver let go of a transfer, its part file goes if it can be unlinked and nothing else does, and the sender is told unless it cancelled itself or is gone |
| TransferRefusal.CancellationIsFinal | linux/src/ferry_linux/core/service.py:656-725 | a cancel by the sending user, by the peer or by the end of the connection, before COMPLETE is written or while no result has arrived, is final: no further chunk is written and `send_file` does not return True |
| TransferRefusal.AnswersDecide | linux/src/ferry_linux/core/service.py:525-535 | while `send_file` waits, ACCEPT alone lets it stream, REJECT and CANCEL end it with False, and the result it returns is the one the receiver sent |
| TransferRefusal.FailuresEndIt | linux/src/ferry_linux/core/service.py:507-628 | timeouts, failing reads, noticed cancels and closed sockets end `send_file` with False, with a CANCEL written if it was streaming; a finished one stays finished and writes nothing |
| TransferRefusal.BusyRejects | linux/src/ferry_linux/core/service.py:1698-1705 | a request that arrives while a transfer is there is rejected and changes nothing else |
| TransferRefusal.AcceptOutcome | linux/src/ferry_linux/core/service.py:1404-1419 | ACCEPT is written exactly if `begin` succeeded |
| TransferRefusal.FittingChunk | linux/src/ferry_linux/core/service.py:1281-1329 | the chunk waited for is taken in; if it cannot be written the transfer is dropped, its part file goes and an ERROR is sent |
| TransferRefusal.UnfittingChunk | linux/src/ferry_linux/core/service.py:1330-1337 | any other chunk ends the transfer and discards its part file without a word, and ends the connection too if the file handle is gone |
| TransferRefusal.CompleteOutcome | linux/src/ferry_linux/core/service.py:1772-1793 | COMPLETE is answered with True, publishing the part file, or with False, exactly as the hash, the state and the disk decide; if `finalise` raises, the connection ends unanswered |
| TransferRefusal.AnsweredIsForgotten | linux/src/ferry_linux/core/service.py:1789-1794 | once the answer is written the transfer is no longer listed and messages are read again |
| TransferCompletion.UndisturbedTransferSucceeds | linux/src/ferry_linux/core/service.py:469-628 | and it can return True: for every source there is a run that ends with the source published and True returned |
| AndroidReceiver.TransferReceiver.DoBegin | android/app/src/main/kotlin/dev/ferry/app/transfer/FerryTransferReceiver.kt:105-126 | a transfer begins exactly if it is IDLE and the file can be created; a part file that is already there is kept and counted as nothing; no other file is touched |
| AndroidReceiver.TransferReceiver.DoCancel | android/app/src/main/kotlin/dev/ferry/app/transfer/FerryTransferReceiver.kt:291-301 | from every state the transfer is over and its part file gone, and no other file is touched |
| AndroidReceiver.TransferReceiver.DoReceiveChunk | android/app/src/main/kotlin/dev/ferry/app/transfer/FerryTransferReceiver.kt:128-160 | accepts exactly the next chunk of this transfer; file, digest and counters grow together, so the file stays the left-over followed by the digested bytes; if it cannot be written the transfer fails without its part file; any other chunk changes nothing |
| AndroidReceiver.TransferReceiver.DoFinalise | android/app/src/main/kotlin/dev/ferry/app/transfer/FerryTransferReceiver.kt:162-202 | true exactly if the digest is the announced one and the part file can be renamed: then that file, the left-over followed by the verified bytes, is the destination, or the alternative if the destination was taken, and nothing else has changed; otherwise the part file is gone |
| AndroidReceiver.TransferReceiver.DoInterrupt | android/app/src/main/kotlin/dev/ferry/app/transfer/FerryTransferReceiver.kt:204-229 | while receiving, also in RESUMING, the offset returned is the length of the part file less the left-over, and the file stays; otherwise -1 and nothing changes |
| AndroidReceiver.TransferReceiver.DoResume | android/app/src/main/kotlin/dev/ferry/app/transfer/FerryTransferReceiver.kt:235-285 | succeeds exactly if the transfer is INTERRUPTED or RESUME_REQUESTED and its part file is there; it then counts the whole part file and, if it could be read, the digest covers exactly that file; otherwise it is FAILED, or unchanged from any other state |
| AndroidReceiver.PublishesLeftoverPart | android/app/src/main/kotlin/dev/ferry/app/transfer/FerryTransferReceiver.kt:105-126 | a transfer that begins over a left-over .part file publishes that file followed by the verified bytes; the published file is the verified one if and only if the .part file was missing or empty |
| AndroidReceiver.LeftoverPartIsPublished | android/app/src/main/kotlin/dev/ferry/app/transfer/FerryTransferReceiver.kt:105-202 | a concrete run in which three bytes are published after one was verified |
| AndroidSender.EncodeChunk | android/app/src/main/kotlin/dev/ferry/app/transfer/FerryTransferClient.kt:56-71 | both decoders read back the id, the number and the data |
| AndroidSender.StreamChunksFromStream | android/app/src/main/kotlin/dev/ferry/app/transfer/FerryTransferClient.kt:145-184 | for every pattern of short reads, the frames written cut exactly the bytes read into nonempty pieces, in order and consecutively numbered; the stream ends early exactly at the first cancel or failing write; the digest returned is that of the whole rest of the stream |
| AndroidResume.AcceptedIffReadableAndFits | android/app/src/main/kotlin/dev/ferry/app/net/FerryControlClient.kt:1280-1353 | an honest resume request is accepted if and only if the sender has a record with a content URI, can still read what is behind it, and the offset is below 2^31; then the sender seeks exactly there, and a larger offset is refused, never obeyed at a wrong place |
| AndroidResume.AskingIsAcceptedIffReadableAndFits | android/app/src/main/kotlin/dev/ferry/app/net/FerryControlClient.kt:1166-1353 | after any drop, also while an earlier resume is still being served: asking is accepted if and only if the sender has its record, can read the file, and fewer than 2^31 bytes have arrived |
| AndroidResume.ResumeContinues | android/app/src/main/kotlin/dev/ferry/app/net/FerryControlClient.kt:829-857 | what an accepted request leads to, wherever the transfer was dropped: the receiver resumes behind the whole part file, its record is used up, and a sender that could seek stands at the same byte with the expected number |
| AndroidResume.WaitingInVain | android/app/src/main/kotlin/dev/ferry/app/net/FerryControlClient.kt:1166-1257 | if the ACCEPT is lost, or the session drops while the receiver waits, or the request could not be sent, the part file goes; asking again then only forgets the record |
| AndroidResume.DropLeaves | android/app/src/main/kotlin/dev/ferry/app/net/FerryControlClient.kt:626-690 | a session that drops while receiving leaves, of a known peer, the part file and a record of its length and of the whole chunks in it; of an unknown one nothing |
| AndroidResume.BetweenSessions | android/app/src/main/kotlin/dev/ferry/app/net/FerryControlClient.kt:626-690 | a drop while nothing is received changes nothing at the receiver; a transfer listed to be discarded is never being received, and discarding deletes its part file and its record |
| AndroidResume.SendAdvances | android/app/src/main/kotlin/dev/ferry/app/transfer/FerryTransferReceiver.kt:128-160 | a streaming sender's next chunk is always taken in and both sides move on together; if it cannot be written the transfer is over and its part file gone |
| AndroidResume.NoResumeAfterwards | android/app/src/main/kotlin/dev/ferry/app/net/FerryControlClient.kt:1725-1755 | once the coroutine of an accepted resume has ended every later request is refused; `sendFile` leaves a record exactly if it saw a cancel that neither user made, after some bytes, with the peer known, and otherwise every request is refused too |
| AndroidResume.AtMostOneResume | android/app/src/main/kotlin/dev/ferry/app/net/FerryControlClient.kt:1725-1755 | so a transfer is resumed at most once, unless a request overtakes the end of the coroutine before it |
| AndroidResume.SecondResumeIsRefused | android/app/src/main/kotlin/dev/ferry/app/net/FerryControlClient.kt:1301-1308 | for every source of two bytes or more a run with one accepted resume after which the link drops again and the second request is refused for want of a record |
| AndroidResume.RefusalDeletesThePart | android/app/src/main/kotlin/dev/ferry/app/net/FerryControlClient.kt:860-885 | in all other cases asking is refused, with the reason the code gives, and the receiver then deletes its .part file and its record |
| AndroidResume.SecondAcceptDeletesThePart | android/app/src/main/kotlin/dev/ferry/app/net/FerryControlClient.kt:829-850 | after two requests, the second ACCEPT reaches a receiver that already resumed, and the .part file is deleted |
| AndroidResume.ResumedDelivery | android/app/src/main/kotlin/dev/ferry/app/net/FerryControlClient.kt:1166-1257 | in every run of dropped sessions, requests, refusals, late or missing answers, expired records and short reads: the .part file is a prefix of the source, a streaming sender stands at its end with the number the receiver expects, the digest covers it, and once everything is in, `finalise` publishes the source if and only if no re-read fell short |
| AndroidResume.StreamCompletes | android/app/src/main/kotlin/dev/ferry/app/net/FerryControlClient.kt:702-730 | feeding the frames of the resumed stream to the receiver makes `finalise` publish the source |
| CrossDelivery.LinuxToAndroidDelivers | android/app/src/main/kotlin/dev/ferry/app/transfer/FerryTransferReceiver.kt:128-202 | from a 64 KiB boundary, an Android receiver in step that receives everything a Linux sender streams from that index publishes the source |
| CrossDelivery.AndroidToLinuxDelivers | linux/src/ferry_linux/core/transfer.py:469-546 | from any boundary of an honest run, a Linux receiver that receives everything an Android sender streams from there, in any pattern of short reads with numbers below 2^32, publishes the source |
| CrossDelivery.NumbersRunOut | android/app/src/main/kotlin/dev/ferry/app/transfer/FerryTransferClient.kt:156-172 | the chunk after number 2^32 - 1 is numbered 0 again, and a Linux receiver refuses it |
| SecureChannel.CrossedKeysMeanSameHandshakes | linux/src/ferry_linux/core/session.py:200-227 | salting alike means having seen each other's handshakes if and only if the received nonces have 16 bytes; one side's check is enough, and then both sign the same transcript |
| SecureChannel.KeysCrossIffSeen | linux/src/ferry_linux/core/session.py:176-267 | with such a check, the keys cross if and only if secrets agree, roles differ and both saw what the other sent |
| SecureChannel.TranscriptsAgreeIffSeen | linux/src/ferry_linux/core/session.py:274-304 | with such a check both ends sign the same transcript if and only if both saw what the other sent |
| SecureChannel.LongNonceIsNotNoticed | linux/src/ferry_linux/core/service.py:1024-1038 | received nonces of 80 bytes with which keys, codes and signed transcripts agree although neither side saw the other's handshake |
| SecureChannel.DeliveredIsPrefix | linux/src/ferry_linux/core/service.py:1164-1181 | whatever bytes the network delivers, and whatever handshakes were received, the plaintexts the session loop hands on are a prefix of those the peer encrypted, and none unless the keys cross |
| SecureChannel.LoopStopsAtTheEnd | linux/src/ferry_linux/core/service.py:1164-1187 | no plaintext but the last one handed on ends the session |
| SessionTraffic.EndIsHandedOn | linux/src/ferry_linux/core/service.py:1164-1187 | a plaintext that ends the session is itself handed on, and nothing behind it is |
| SecureChannel.NonceLayout | linux/src/ferry_linux/core/session.py:395-400 | a nonce is four zero bytes and the counter in big-endian order, which can be read back from it |
| SecureChannel.FerrySession.EncryptFrame | linux/src/ferry_linux/core/session.py:311-330 | the counter moves exactly when a frame is produced, and the frame is the sealed plaintext with that counter as nonce |
| SessionTraffic.DecryptSealed | linux/src/ferry_linux/core/session.py:332-363 | decrypting a sealed frame gives its plaintext and moves the counter if and only if its number is the expected one |
| SecureChannel.ForgedFrameUsesUpItsNumber | linux/src/ferry_linux/core/session.py:358-363 | a frame with the expected nonce that is not authentic moves the counter, so the genuine frame with that number is refused afterwards |
| SessionTraffic.PeerSession.SendEncrypted | linux/src/ferry_linux/core/service.py:1966-1974 | up to its first await, `send_encrypted` keeps the wire equal to the frames 0, 1, 2, ... in order |
| SessionTraffic.RunTasks | linux/src/ferry_linux/core/service.py:1966-1974 | under any schedule of tasks sharing one session the counters on the wire are 0, 1, 2, ..., and the messages of each task appear in its order, none missing |
| SessionTraffic.RunSessionLoop | linux/src/ferry_linux/core/service.py:1164-1181 | the loop hands on exactly the plaintexts the specification gives for the byte stream |
| SessionTraffic.LoopDelivers | linux/src/ferry_linux/core/service.py:1164-1181 | frames with any numbers, in any order, are handed on exactly up to the first one out of turn |
| SessionTraffic.DeliveredIffCounting | linux/src/ferry_linux/core/service.py:1164-1181 | so everything written is delivered if and only if the numbers on the wire are 0, 1, 2, ... |
| SessionTraffic.LinuxDeliversAll | linux/src/ferry_linux/core/service.py:1966-1974 | a reliable link therefore delivers everything that Linux sends |
| AndroidThreads.NumbersDistinctIffApart | android/app/src/main/kotlin/dev/ferry/app/security/FerrySession.kt:224-243 | on Android, where nothing locks the counter, no two frames share a number if and only if no encryption begins between another one's first read of the counter and its write back |
| AndroidThreads.AndroidDeliversIff | android/app/src/main/kotlin/dev/ferry/app/net/FerryControlClient.kt:537-552 | every message goes out at most once; once all are written, everything is delivered if and only if the encryptions were apart in that sense and the frames were written in the order in which they began |
| AndroidThreads.OneAtATimeDelivers | android/app/src/main/kotlin/dev/ferry/app/net/FerryControlClient.kt:537-552 | if no thread begins to encrypt while another still has a frame to write, everything written is delivered, in order |
| AndroidThreads.AndroidCanStall | android/app/src/main/kotlin/dev/ferry/app/net/FerryControlClient.kt:537-552 | a concrete interleaving of two threads that write in the wrong order, after which the peer hands on nothing |
| AndroidThreads.AndroidCanRepeatANumber | android/app/src/main/kotlin/dev/ferry/app/security/FerrySession.kt:228-229 | a concrete interleaving in which two frames carry the number 0: the first is handed on, the second refused |
| Pairing.TrustNeedsBothUsers | linux/src/ferry_linux/core/service.py:323-350 | between two Linux peers, in every run, trust is persisted on a side only if both users accepted |
| Pairing.RejectionCloses | linux/src/ferry_linux/core/service.py:1192-1194 | after every run an end that rejected, or that has read everything from an end that rejected, is closed; while the link holds no end closes for another reason |
| Pairing.RejectionArrives | linux/src/ferry_linux/core/service.py:340-350 | reading what was sent does close the peer of an end that rejected |
| Pairing.ClosedIsFinal | linux/src/ferry_linux/core/service.py:1192-1194 | a closed end stays as it is: no later click or message makes it persist trust |
| Pairing.ClicksCount | linux/src/ferry_linux/core/service.py:323-350 | on an open end a click on Accept counts and sends an ACCEPT, a click on Reject counts, sends a REJECT and leaves trust alone |
| Pairing.CapabilitiesFollow | linux/src/ferry_linux/core/service.py:1195-1207 | reading an ACCEPT that establishes a session advertises the capabilities, and reading sends nothing else |
| Pairing.DrainedIsComplete | linux/src/ferry_linux/core/service.py:1189-1207 | with nobody rejecting and the link up, once the channels are empty both sides are established with trust if and only if both users accepted |
| Pairing.CanDrain | linux/src/ferry_linux/core/service.py:1189-1207 | and the channels can always be emptied by deliveries alone |
| PairingAndroid.TrustNeedsTheLinuxUser | android/app/src/main/kotlin/dev/ferry/app/net/FerryControlClient.kt:574-622 | between Linux and Android, trust on either side implies that the Linux user accepted; the phone's ACCEPTs never exceed its user's accepts plus the ACCEPTs it read |
| PairingAndroid.RejectionClosesBoth | android/app/src/main/kotlin/dev/ferry/app/net/FerryControlClient.kt:504-518 | after every run a rejection that was sent has closed its own device, and the other one once it has read everything |
| PairingAndroid.ClosedDeviceIsFinal | android/app/src/main/kotlin/dev/ferry/app/net/FerryControlClient.kt:574-581 | a device that is closed never persists trust afterwards and sends nothing more |
| PairingAndroid.PhoneCloses | android/app/src/main/kotlin/dev/ferry/app/net/FerryControlClient.kt:504-518 | the phone closes at its own rejection, whether or not that gets through, at a REJECT it reads and at a drop, and trust stays as it was |
| PairingAndroid.PhoneAnswers | android/app/src/main/kotlin/dev/ferry/app/net/FerryControlClient.kt:465-622 | the user's Accept counts once and sends an ACCEPT later; an ACCEPT read that establishes the phone without its user is echoed with its capabilities, one that finds it established is echoed alone, nothing else is answered |
| PairingAndroid.SettledIsComplete | android/app/src/main/kotlin/dev/ferry/app/net/FerryControlClient.kt:465-502 | once everything has arrived, both devices are established with trust if and only if the Linux user accepted |
| PairingAndroid.ProgressShrinks | android/app/src/main/kotlin/dev/ferry/app/net/FerryControlClient.kt:574-622 | every delivery and every coroutine that gets to send brings a measure down, so the ACCEPT echo terminates |
| PairingAndroid.PhoneUserIsNotNeeded | android/app/src/main/kotlin/dev/ferry/app/net/FerryControlClient.kt:574-598 | a run in which both devices persist trust and the phone's user never accepted |
| SessionLifecycle.Connection.Transition | linux/src/ferry_linux/core/session.py:369-389 | a change of state happens if and only if the table allows it, and otherwise raises and changes nothing |
| SessionLifecycle.TableMovesOn | linux/src/ferry_linux/core/session.py:369-389 | the table never leads back except to DISCONNECTED or between the two waiting states; only an authenticated known peer or an accepted pairing is established; every open state can close or fail |
| SessionLifecycle.DecisionsDetermineTheState | linux/src/ferry_linux/core/service.py:323-338 | in the loop the state depends only on whether the user has clicked Accept and an ACCEPT has arrived: established as soon as both have, in whichever order and however often |
| SessionLifecycle.RejectingFails | linux/src/ferry_linux/core/service.py:340-350 | a user who rejects while the loop runs ends the session FAILED, whatever follows; nothing else in the loop does |
| SessionLifecycle.StopsTheLoop | linux/src/ferry_linux/core/service.py:1164-1263 | the loop stops at the first REJECT, end of stream, error, cancellation or failed persist, in the state reached by then and for that reason, and otherwise at the idle timeout; nothing behind that counts |
| SessionLifecycle.FailedPersistIsFinal | linux/src/ferry_linux/core/service.py:1198-1207 | after a database error while trust is persisted the session is never established |
| SessionLifecycle.FailedIff | linux/src/ferry_linux/core/service.py:1120-1158 | a connection ends FAILED if and only if something raised before its loop, or its user rejected in the loop |
| SessionLifecycle.Connection.RunSessionLoop | linux/src/ferry_linux/core/service.py:1254-1263 | the loop stops in the state and for the reason that its events give, and its final block then ends DISCONNECTED through CLOSING, or leaves FAILED and raises |
| SessionLifecycle.Connection.RunHandshake | linux/src/ferry_linux/core/service.py:963-1158 | whatever fails, is cancelled or rejected: the peer's key leaves the active sessions, every change of state was in the table, the final state is the specified one, and it is DISCONNECTED or FAILED if and only if the task is not cancelled before its loop and again while the final block waits for the socket to close |
| SessionLifecycle.DoublyCancelledSessionStaysOpen | linux/src/ferry_linux/core/service.py:1130-1158 | a concrete script with the two cancellations, which leaves the session in HANDSHAKING |
| TokenBucket.AcceptedIffEveryWindowFits | linux/src/ferry_linux/core/notification_bridge.py:47-62 | a request is accepted if and only if it fits into every window that starts at the creation, an earlier request or itself |
| TokenBucket.TokensAreTheTightestWindow | linux/src/ferry_linux/core/notification_bridge.py:54-62 | the tokens held are the smallest allowance over all windows, and equal to one of them |
| TokenBucket.WindowBound | linux/src/ferry_linux/core/notification_bridge.py:54-62 | the requests accepted in any window number at most burst + rate times its length |
| TokenBucket.SpacedRequestIsAccepted | linux/src/ferry_linux/core/notification_bridge.py:54-62 | the first request, and one at least 1/rate after its predecessor, is accepted |
| TokenBucket.Bucket.Consume | linux/src/ferry_linux/core/notification_bridge.py:54-62 | the two fields of the bucket stay those of its whole history, and the answer is the history's |
| Recency.LookupAgrees | linux/src/ferry_linux/core/notification_bridge.py:181-193 | a lookup in a bounded map that evicts what was touched longest ago gives what the unbounded map holds, or nothing, and nothing only after `cap` other keys were put |
| Recency.UnboundedIsLastPut | linux/src/ferry_linux/core/notification_bridge.py:181-204 | the unbounded map holds exactly the values put last and not dropped since |
| NotificationIds.Ids.StoreId | linux/src/ferry_linux/core/notification_bridge.py:185-193 | storing and evicting on the ordered map is the specified step |
| NotificationIds.Ids.PopAll | linux/src/ferry_linux/core/notification_bridge.py:195-204 | collecting keys and popping them one by one removes exactly the picked entries |
| NotificationIds.Ids.ExpireOld | linux/src/ferry_linux/core/notification_bridge.py:200-204 | expiry is the specified step |
| NotificationIds.Ids.RemoveByDbusId | linux/src/ferry_linux/core/notification_bridge.py:195-198 | what the desktop closed is removed as specified |
| NotificationIds.Ids.Remove | linux/src/ferry_linux/core/notification_bridge.py:160-179 | the entry of the removed notification goes, and no other |
| NotificationIds.Ids.GetReplacesId | linux/src/ferry_linux/core/notification_bridge.py:181-183 | the id found for the history, or 0 |
| NotificationIds.OrderedByExpiry | linux/src/ferry_linux/core/notification_bridge.py:185-204 | under a clock that does not go back the map is ordered by expiry after every run |
| NotificationIds.ExpiryRemovesAPrefix | linux/src/ferry_linux/core/notification_bridge.py:200-204 | so expiry removes a prefix and leaves the rest as it was |
| NotificationIds.LookupIsCurrent | linux/src/ferry_linux/core/notification_bridge.py:181-204 | after every run the map has at most 200 entries; a lookup gives 0 or the id last stored for the key and not since removed, closed or expired; and that id unless 200 other keys were stored since |
| Deduplicator.NotificationDeduplicator.ShouldSend | android/app/src/main/kotlin/dev/ferry/app/notification/NotificationDeduplicator.kt:24-30 | the decision and the new cache are those of the history extended by this notification |
| Deduplicator.NotificationDeduplicator.Remove | android/app/src/main/kotlin/dev/ferry/app/notification/NotificationDeduplicator.kt:32-34 | the new cache is that of the history extended by the removal |
| Deduplicator.HeldBackIffHashedAlike | android/app/src/main/kotlin/dev/ferry/app/notification/NotificationDeduplicator.kt:18-42 | after every history: suppressed if and only if the cache still holds the id and the last notification for it, not removed since, hashes alike; the id is held while fewer than 200 other ids were seen since; never more than 200 entries |
| Deduplicator.HeldBackIffRepeated | android/app/src/main/kotlin/dev/ferry/app/notification/NotificationDeduplicator.kt:18-42 | without a collision of the two hashes: suppressed if and only if the id is held and the notification repeats the last one or differs by a zero byte moved between title and body; the latter only if one of the titles has a zero byte |
| Deduplicator.ShiftedZeroByteIsHeldBack | android/app/src/main/kotlin/dev/ferry/app/notification/NotificationDeduplicator.kt:36-42 | a concrete history in which a different notification is suppressed, whatever the hash |
| Deduplicator.PreimageCollision | android/app/src/main/kotlin/dev/ferry/app/notification/NotificationDeduplicator.kt:36-42 | two different notifications are hashed as the same bytes if and only if one title continues the other after a zero byte and the bodies make up for it |
| InterruptedStore.IndexRoundTrip | android/app/src/main/kotlin/dev/ferry/app/transfer/InterruptedTransferStore.kt:259-267 | joining distinct ids with commas and splitting the string again gives the ids back, for ids that are not blank and have no comma |
| InterruptedStore.SurvivesIffGood | android/app/src/main/kotlin/dev/ferry/app/transfer/InterruptedTransferStore.kt:259-267 | of any index that is saved, an id is listed again if and only if it is not blank and has no comma |
| InterruptedStoreClass.InterruptedTransferStore.DoSave | android/app/src/main/kotlin/dev/ferry/app/transfer/InterruptedTransferStore.kt:117-129 | the record of that id is replaced and no other: the store stands for the plain map with it, while ids are good and the clock does not go back |
| InterruptedStoreClass.InterruptedTransferStore.DoDelete | android/app/src/main/kotlin/dev/ferry/app/transfer/InterruptedTransferStore.kt:135-140 | the record of that id goes and no other |
| InterruptedStoreClass.InterruptedTransferStore.DoClear | android/app/src/main/kotlin/dev/ferry/app/transfer/InterruptedTransferStore.kt:145-153 | the store stands for the empty map |
| InterruptedStoreClass.InterruptedTransferStore.DoGet | android/app/src/main/kotlin/dev/ferry/app/transfer/InterruptedTransferStore.kt:161-175 | the answer is what the plain map holds, unless it has expired, and the map stays as it is |
| InterruptedStoreClass.InterruptedTransferStore.DoListForSender | android/app/src/main/kotlin/dev/ferry/app/transfer/InterruptedTransferStore.kt:185-220 | the list is exactly the map's unexpired records of that sender, each once, and the map stays as it is |
| InterruptedStoreClass.InterruptedTransferStore.DoPruneExpired | android/app/src/main/kotlin/dev/ferry/app/transfer/InterruptedTransferStore.kt:226-252 | exactly the map's unexpired records are left, and the number removed is returned |
| InterruptedStoreRuns.StoreIsAPlainMap | android/app/src/main/kotlin/dev/ferry/app/transfer/InterruptedTransferStore.kt:117-252 | after every run with good ids and a clock that does not go back, the decoded index is the set of stored keys, `get` answers as a plain map would, and `listForSender` returns exactly the unexpired records of that sender |
| InterruptedStoreRuns.RunRel | android/app/src/main/kotlin/dev/ferry/app/transfer/InterruptedTransferStore.kt:117-277 | the relation between preferences and plain map holds after every run, from every pair in which it holds |
| InterruptedStoreRuns.ListAnswers | android/app/src/main/kotlin/dev/ferry/app/transfer/InterruptedTransferStore.kt:185-220 | the list holds exactly the map's unexpired records of the sender, each once |
| InterruptedStoreRuns.PruneAnswers | android/app/src/main/kotlin/dev/ferry/app/transfer/InterruptedTransferStore.kt:226-252 | pruning leaves exactly the unexpired records and returns how many went |
| InterruptedStoreRuns.SavedIsListedIffGood | android/app/src/main/kotlin/dev/ferry/app/transfer/InterruptedTransferStore.kt:117-220 | saving an unexpired record into any store that matches a map: `get` finds it, and it is listed if and only if its id is not blank and has no comma |
| InterruptedStoreRepair.PruneRepairs | android/app/src/main/kotlin/dev/ferry/app/transfer/InterruptedTransferStore.kt:226-252 | over any preferences: what is listed after pruning is exactly what was listed, readable and unexpired; the other listed ids lose their records, nothing else is touched, and the number is returned |
| InterruptedStoreRepair.ListRepairs | android/app/src/main/kotlin/dev/ferry/app/transfer/InterruptedTransferStore.kt:185-220 | over any preferences: the list holds exactly the listed records that can be read, have not expired and are of the sender; unreadable and expired ones are forgotten, an id without a record is kept |
| InterruptedStoreRepair.GetRepairs | android/app/src/main/kotlin/dev/ferry/app/transfer/InterruptedTransferStore.kt:161-175 | over any preferences: a record is returned exactly if it is there, readable and unexpired; an expired one is deleted, an unreadable one stays |
| InterruptedStoreRepair.ClearRepairs | android/app/src/main/kotlin/dev/ferry/app/transfer/InterruptedTransferStore.kt:145-153 | over any preferences: every listed record goes and nothing is listed any more; records that were not listed stay |
| BurstBuffer.NotificationDispatcher.DoEnqueue | android/app/src/main/kotlin/dev/ferry/app/notification/NotificationDispatcher.kt:38-58 | the buffer and the messages sent are those of the ledger after the step; what that sends and leaves is LiveEnqueueSendsAll and IdleEnqueueBuffers |
| BurstBuffer.NotificationDispatcher.DoFlush | android/app/src/main/kotlin/dev/ferry/app/notification/NotificationDispatcher.kt:64-75 | the buffer and the messages sent are those of the ledger after the flush; what that sends and leaves is FlushSendsTheYoung |
| BurstBuffer.NotificationDispatcher.DoEnqueueRemove | android/app/src/main/kotlin/dev/ferry/app/notification/NotificationDispatcher.kt:78-87 | the buffer and the messages sent are those of the ledger after the step; what that sends and leaves is RemovalLeavesNothing |
| BurstBuffer.NothingIsLost | android/app/src/main/kotlin/dev/ferry/app/notification/NotificationDispatcher.kt:38-114 | after every run: at most 20 buffered; every enqueued notification exactly once among sent, expired, dropped, removed and buffered; sent ones in enqueue order and before the buffered ones; none sent more than 60 seconds after its stamp, none expired before |
| BurstSteps.FlushSendsTheYoung | android/app/src/main/kotlin/dev/ferry/app/notification/NotificationDispatcher.kt:64-75 | after every run: a flush with a live session empties the buffer and sends exactly the buffered notifications that are at most 60 seconds old, in enqueue order; without one it sends nothing and forgets only the older ones |
| BurstSteps.LiveEnqueueSendsAll | android/app/src/main/kotlin/dev/ferry/app/notification/NotificationDispatcher.kt:42-50 | after every run: enqueueing with a live session sends exactly the young buffered ones, then the new one, and leaves the buffer empty |
| BurstSteps.IdleEnqueueBuffers | android/app/src/main/kotlin/dev/ferry/app/notification/NotificationDispatcher.kt:51-57 | after every run: enqueueing without a session sends nothing and buffers the new notification behind the young ones; one of these is missing only if it was the oldest and 20 are held |
| BurstSteps.RemovalLeavesNothing | android/app/src/main/kotlin/dev/ferry/app/notification/NotificationDispatcher.kt:78-87 | after every run: `enqueueRemove` takes exactly the notifications of that id out of the buffer, and sends a removal exactly if the session is live |
| BurstSteps.MessageFits | android/app/src/main/kotlin/dev/ferry/app/notification/NotificationDispatcher.kt:89-109 | a message carries the notification, with title, body, package and label cut at 200, 1000, 255 and 100 characters and only there |
| BurstBuffer.OnlyTheOldestIsDropped | android/app/src/main/kotlin/dev/ferry/app/notification/NotificationDispatcher.kt:52-56 | a notification is dropped for space only when at least 20 later ones have been enqueued |
| BurstBuffer.NothingSentAfterRemoval | android/app/src/main/kotlin/dev/ferry/app/notification/NotificationDispatcher.kt:78-87 | whatever follows an `enqueueRemove`, no notification of that id enqueued before it is sent after it |
| BurstBuffer.LiveSessionSendsAll | android/app/src/main/kotlin/dev/ferry/app/notification/NotificationDispatcher.kt:42-50 | while the session is live every notification is sent, in order, and none is buffered |
| ControlFrames.FragmentationDoesNotMatter | linux/src/ferry_linux/protocol/models.py:468-506 | however any byte stream, also a malformed one, is cut into pieces, the reader ends with the same envelopes, remainder and error as for the whole |
| ControlFrames.HeaderDecides | linux/src/ferry_linux/protocol/models.py:466-506 | decoding waits for six bytes; a wrong magic or an announced length above 1 MiB raises as soon as they are there; a smaller frame is waited for, and is then an envelope exactly if its payload parses; encoding refuses exactly the payloads above 1 MiB |
| ControlFrames.PrefixDecodes | linux/src/ferry_linux/protocol/models.py:468-506 | on every prefix of a stream of encoded envelopes decoding raises nothing, gives exactly the envelopes whose frames are whole within it, and leaves exactly the bytes behind them |
| ControlFrames.WholeFramesFit | linux/src/ferry_linux/protocol/models.py:468-506 | those frames fit into the prefix, and one more would not |
| ControlFrames.WholeStreamDecodes | linux/src/ferry_linux/protocol/models.py:468-506 | the whole stream decodes to all envelopes, with every byte consumed |
| ControlFrames.DeframingRoundTrip | linux/src/ferry_linux/protocol/models.py:468-506 | any cut of the encoded envelopes into pieces gives the envelopes back |
| Hkdf.HkdfSha256 | android/app/src/main/kotlin/dev/ferry/app/security/FerrySession.kt:313-346 | the loop computes Extract-then-Expand of RFC 5869, sections 2.2 and 2.3, and refuses exactly the empty salt; beyond the RFC's 255 blocks the counter octet wraps around |
| Hkdf.ShorterIsPrefix | android/app/src/main/kotlin/dev/ferry/app/security/FerrySession.kt:328-346 | a shorter output is a prefix of a longer one |

## Left out

- GTK and Compose screens, IPC, D-Bus calls, mDNS, sockets, the foreground service, key storage: plumbing without deep state.
- Clipboard sync, batches, transfer history, the SQLite layer, the stall monitor: not part of this model.
- X25519, Ed25519, ChaCha20-Poly1305, SHA-256 and HMAC themselves: parameters with the laws named above. Equal Diffie-Hellman secrets on both sides are a hypothesis, and in SecureChannel a derived key is identified with what it was derived from.
- Deduplicator.HeldBackIffRepeated: titles and bodies are the bytes Kotlin encodes them to; an unpaired surrogate is encoded as a question mark, so two strings that differ only there are the same bytes here.
- JSON text, UTF-8 and the field-by-field parsing of payloads: an abstract codec that reads back what it wrote.
- The textual form of UUIDs: a transfer id is its 16 bytes, so two spellings of one id are not told apart.
- Filename policy, staging directories and symbolic links: a receiver is given its .part path, its final path and one alternative.
- `streamChunks` over a byte array on Android: the stream variant covers its framing; the Int overflow of its offset near 2^31 is not modelled.
- Rebuilding an interrupted Linux transfer from the database: it lacks its final path (a limitation the repository documents), so a Linux resume is modelled on the same object.
- A chunk of which only a first part reached the file before the write failed: such a transfer ends, and the bytes are not tracked.
- Waiting for an answer: a reply that arrives before its waiter is registered is lost; only safety, and that success is possible, are proved.
- TransferProtocol.SuccessMeansPublished: `send_file` and the receiving loop are atomic steps on values rather than classes, because what matters is their interleaving; the resume messages are not among its steps.
- Pairing.TrustNeedsBothUsers: the two services are steps on values; the persisted trust is a flag, and a failing database is covered in SessionLifecycle only.
- AndroidThreads.AndroidDeliversIff: a thread sees the latest value of the counter, and a frame goes to the socket in one piece; stale reads of the unsynchronised field and interleaved writes of one frame's bytes are not modelled. The theorem speaks of the moment when all begun messages are written; NumbersDistinctIffApart holds at every moment.
- AndroidResume.ResumedDelivery: a second request while one waits for its answer is not a step of these runs; SecondAcceptDeletesThePart says what its ACCEPT does. The source is one byte string throughout, readable or not, that does not change between the first send and a resume. One transfer with one id; the flags that decide whether `sendFile` saves a record are an input of its end, the rest of both phones' sessions is not modelled.
- SecureChannel.DeliveredIsPrefix: the network cannot produce a ciphertext that opens and that neither end sealed; timeouts of the loop appear as the end of the stream.
- BurstBuffer.NothingIsLost: sending is handing a message to the client; whether the session then loses it is the client's matter. A character is one of Dafny's, so a title cut inside a surrogate pair is not modelled.
- InterruptedStore.IndexRoundTrip: records keep the fields the store looks at and the rest as one string.
