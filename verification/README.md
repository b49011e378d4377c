# A verified model of the software authenticator

Dafny models of the parts of this FIDO2 authenticator that carry state, and
proofs about every run of them. `dafny verify dfyconfig.toml` checks all of it.

What is proved, by part:

- **CTAPHID** (section 11.2 of CTAP 2.3). The transaction machine of the fuzz
  target's oracle keeps a joint invariant over all its fields, so that none of
  its assertions can fail. The production host, frame by frame, refines it. A
  harness runs both on any sequence of actions, and every check it makes holds.
  Every CBOR or MSG message the production host puts on the wire is in the log of
  the run, and by that log an app's answer reaches only who it was for, once. The app is
  interrupted exactly when work it holds is dropped or cancelled.
  (`Framing`, `CtaphidOracle`, `CtaphidInvariant`, `CtaphidHost`, `CtaphidQueue`,
  `CtaphidRefinement`, `CtaphidInterrupt`, `CtaphidManners`, `CtaphidModel`, `CtaphidTransport`,
  `CtaphidHarness`, `CtaphidTrace`, `StraceAssembler`.)
- **The PIN state over a store that fails** (sections 6.5.5 and 6.11.4). Writes
  may be rejected, published without confirmation or rolled back by a power
  loss, and reads may fail. A PIN is never judged wrong more than 8 times
  between two restorations of its retries. (`PinEngine`.)
- **The large-blob array** (section 6.10). It changes only to what one
  uninterrupted write sent, and what is written is read. (`LargeBlobs`.)
- **Tokens and credential management** (sections 6.5.2 and 6.8). Grants only
  narrow, and an enumeration is of the credentials there are, under the grant
  that began it. (`Tokens`, `Order`, `Management`.)
- **The seat watcher.** A device serves only in the very state of the seat it
  was created under. (`Seat`.)
- **Arithmetic and codecs** (on `Numbers`). ML-DSA unpacking (`MlDsa`), scalar derivation
  (`Ecdsa`), the certificate walk (`Der`), and canonical CBOR: what the engine
  accepts is exactly what is canonical (`Cbor`, `CborAcceptor`, `CborExact`).

How the model is laid out. Code that updates fields is a class with those
fields and methods; each method is proved against a function of the old state,
or states the new state outright, and lemmas reason about those functions.
`CtaphidOracle` and `CtaphidHost` hold the two CTAPHID machines as functions on
values, `CtaphidModel` and `CtaphidTransport` the same machines as classes.

What the environment decides is a parameter: random draws, whether a U2F
request asks for presence, the time, what the store and the app do, and the
outcome of each store call. Hashes and MACs are arbitrary functions. In
`PinEngine` the store keeps, beside what it shows, the set of what a power loss
may leave; in `Seat` the history of the seat's states is kept, with distinct
records, as logind writes each state to a new file.

Two findings about the source.

- The policy does not fall in any step without a reset, nor over a restart of the
  process, but a power loss that rolls an unconfirmed write back takes the policy
  back with it (`PinEngine.UnconfirmedPolicyLost`). It can fall if and only if the
  store may hold a laxer state: `PinEngine.Engine.Run` keeps a policy that
  everything the store may hold has reached, through power losses too, and
  `PinEngine.Engine.LaxerPolicyFound` loses any other. After setMinPINLength that
  is so exactly if its write was confirmed or nothing laxer could be left before
  (`PinEngine.Engine.SetMinPinLength`, `PinEngine.Engine.ConfirmedPolicyStands`).
- The sequence oracle of the fuzz target moves a management cursor past deleted
  credentials, which the engine never has to: every change of the discoverable
  credentials ends the enumerations, so each list stays that of the credentials
  there are, and only corrupt records are skipped (`Management.Manager.OnlyCorrupt`).

## Model

| member | source | states |
|---|---|---|
| `Framing.RoundTrip` | fuzz/src/ctaphid.rs:185-261 | Splitting any payload of at most 7609 bytes into frames and reassembling them gives the payload back, with the sequence and padding checks passing at every frame |
| `Framing.AssembleStep` | fuzz/src/ctaphid.rs:203-261 | After k frames of a message the assembly holds exactly its first 57 + 59(k-1) bytes and expects sequence k-1, so the sequence never passes 128 |
| `Framing.FrameAt` | fuzz/src/ctaphid.rs:185-201 | Frame 0 is the initialization frame of the first 57 bytes, frame k the continuation frame with sequence k - 1 of what the k frames before it have not carried, and the frames end exactly when the payload does |
| `Framing.MessagePackets` | fuzz/src/ctaphid.rs:185-201 | The fragmenting loop yields exactly the frames that the round trip is about, whatever length the header announces |
| `StraceAssembler.Assembler.FeedFrame` | contrib/debug/uhid_strace_decode.py:46-67 | The dictionary of partial messages takes the step of the specification, and a message is returned exactly when it is whole |
| `StraceAssembler.Interleaving` | contrib/debug/uhid_strace_decode.py:53-67 | Under any interleaving of channels, what is decoded on a channel is what that channel's frames alone decode to |
| `StraceAssembler.DecodesInterleaved` | contrib/debug/uhid_strace_decode.py:53-67 | A message whose frames arrive in order among frames of other channels is decoded exactly once and exactly |
| `CtaphidInvariant.PacketInv` | fuzz/src/ctaphid/model.rs:136-352 | Every packet keeps the joint invariant: exactly one completing reply in the queue if the owner is responding and none otherwise, with the owner's id and channel and no keepalive behind it; the poll, the worker, the denied table, the lease and the channel table agree with the owner |
| `CtaphidInvariant.InitInv` | fuzz/src/ctaphid/model.rs:161-236 | INIT keeps it: the aborted owner's replies leave the queue, the channel table stays duplicate-free, bounded and without 0 and broadcast |
| `CtaphidInvariant.CompleteMsgInv` | fuzz/src/ctaphid/model.rs:288-352 | A completed U2F message keeps it whether it is answered from the poll, from a denial, refused as busy or handed to the app |
| `CtaphidInvariant.TimeoutInv` | fuzz/src/ctaphid/model.rs:354-390 | Every expiry keeps it |
| `CtaphidInvariant.KeepaliveInv` | fuzz/src/ctaphid/model.rs:392-420 | A keepalive keeps it, so none is ever queued behind a completing reply |
| `CtaphidInvariant.IdentificationInv` | fuzz/src/ctaphid/model.rs:435-447 | The result of a WINK, stale or not, keeps it |
| `CtaphidInvariant.TakeInv` | fuzz/src/ctaphid/model.rs:459-483 | Handing a request to the app keeps it |
| `CtaphidInvariant.AnswerInv` | fuzz/src/ctaphid/model.rs:485-522 | The app's answer keeps it on each of its paths: delivered, denied, stored, too late, or dropped |
| `CtaphidInvariant.OutputInv` | fuzz/src/ctaphid/model.rs:524-546 | Sending the front reply keeps it, and ends the transaction exactly when the reply completes it |
| `CtaphidModel.Model.Packet` | fuzz/src/ctaphid/model.rs:136-286 | The imperative packet handler, its assertions included, takes the step of the state machine the invariant is about |
| `CtaphidModel.Model.Send` | fuzz/src/ctaphid/model.rs:99-124 | Queuing a reply asserts and records who it completes |
| `CtaphidModel.Model.DrawFree` | fuzz/src/ctaphid/model.rs:200-222 | The loop over random draws finds the channel the specification draws, or none after the bounded number of tries |
| `CtaphidModel.Model.CompleteRequest` | fuzz/src/ctaphid/model.rs:288-352 | A complete message is answered or handed on as the state machine does |
| `CtaphidModel.Model.HandleTimeout` | fuzz/src/ctaphid/model.rs:354-390 | The timers fire as in the state machine |
| `CtaphidModel.Model.SendKeepalive` | fuzz/src/ctaphid/model.rs:392-420 | A keepalive is due, and what it says, as in the state machine |
| `CtaphidModel.Model.RequestTaken` | fuzz/src/ctaphid/model.rs:459-483 | The app takes the owner's request, with every assertion on it proved |
| `CtaphidModel.Model.Answered` | fuzz/src/ctaphid/model.rs:485-522 | The app's answer takes the step of the state machine, with the assertion that poll and worker agree proved |
| `CtaphidModel.Model.Sent` | fuzz/src/ctaphid/model.rs:524-546 | The reply sent is the one at the front, and it releases the transaction it completes and no other |
| `CtaphidRefinement.PacketSim` | crates/pqkey/src/transport/ctaphid_host.rs:399-422 | The production host and the oracle stay in the simulation relation over every packet: same owner, poll, denials, lease and channels, and the queued frames are those of the queued replies |
| `CtaphidRefinement.TimeoutSim` | crates/pqkey/src/transport/ctaphid_host.rs:424-470 | ... over every expiry |
| `CtaphidRefinement.KeepaliveSim` | crates/pqkey/src/transport/ctaphid_host.rs:472-539 | ... over every keepalive and presence report |
| `CtaphidRefinement.TakeSim` | crates/pqkey/src/transport/ctaphid_host.rs:609-634 | ... over handing a request to the app, which both hand on at the same moments |
| `CtaphidRefinement.IdentificationSim` | crates/pqkey/src/transport/ctaphid_host.rs:589-607 | ... over the results of a WINK |
| `CtaphidRefinement.AnswerSim` | crates/pqkey/src/transport/ctaphid_host.rs:647-714 | ... over the app's answer |
| `CtaphidRefinement.WriteSim` | crates/pqkey/src/transport/ctaphid_host.rs:716-744 | ... over each frame written: a reply of the oracle is done when its last frame is |
| `CtaphidRefinement.ResynchroniseMatch` | crates/pqkey/src/transport/ctaphid_host.rs:790-877 | An INIT that succeeds drops exactly the frames of the replies the oracle drops, also from the middle of a reply |
| `CtaphidRefinement.DenialsMatch` | crates/pqkey/src/transport/ctaphid_host.rs:994-1095 | The host's suppression list, which it does not prune where the oracle does, answers the same requests |
| `CtaphidRefinement.FindDeniedSame` | crates/pqkey/src/transport/ctaphid_host.rs:994-1095 | Looking a request up among all denials or only among the fresh ones finds the same denial |
| `CtaphidQueue.QueuedAppend` | crates/pqkey/src/transport/ctaphid_host.rs:1097-1151 | A queue of tokened frames that stands for a queue of replies still does once a message is queued |
| `CtaphidQueue.QueuedPurge` | crates/pqkey/src/transport/ctaphid_host.rs:790-877 | ... and once the frames of one channel are removed |
| `CtaphidQueue.QueuedPartial` | crates/pqkey/src/transport/ctaphid_host.rs:733-744 | ... and once a frame that is not the last of its reply is written |
| `CtaphidQueue.QueuedLast` | crates/pqkey/src/transport/ctaphid_host.rs:733-744 | ... and once the last one is, with the transaction over exactly if the reply completed it |
| `CtaphidTransport.CtaphidHost.HandleFrame` | crates/pqkey/src/transport/ctaphid_host.rs:399-422 | The production host's frame handler takes the step the refinement is about |
| `CtaphidTransport.CtaphidHost.Queue` | crates/pqkey/src/transport/ctaphid_host.rs:1105-1151 | The loop that queues the frames of a message, or of ERR_OTHER for one that does not fit, and the token of its last frame |
| `CtaphidTransport.CtaphidHost.AllocateChannel` | crates/pqkey/src/transport/ctaphid_host.rs:1161-1176 | The production host draws the channel the oracle draws |
| `CtaphidTransport.CtaphidHost.Request` | crates/pqkey/src/transport/ctaphid_host.rs:879-962 | A new request is refused, received or completed as specified |
| `CtaphidTransport.CtaphidHost.Complete` | crates/pqkey/src/transport/ctaphid_host.rs:994-1095 | A complete message is answered or handed on as specified |
| `CtaphidTransport.CtaphidHost.Timeout` | crates/pqkey/src/transport/ctaphid_host.rs:424-470 | The timers fire as specified |
| `CtaphidTransport.CtaphidHost.Respond` | crates/pqkey/src/transport/ctaphid_host.rs:647-714 | The app's answer is delivered, stored or dropped as specified |
| `CtaphidTransport.CtaphidHost.OutgoingFrameWritten` | crates/pqkey/src/transport/ctaphid_host.rs:733-744 | Only the frame at the front retires, and only if it is still the one that was selected |
| `CtaphidTransport.CtaphidHost.NextDeadline` | crates/pqkey/src/transport/ctaphid_host.rs:541-561 | The next deadline is the least of those there are |
| `CtaphidManners.PacketPolite` | fuzz/src/ctaphid.rs:281-322 | Every reply the oracle queues is well formed for its command and goes to a channel that has sent something |
| `CtaphidManners.DeadlineBound` | fuzz/src/ctaphid.rs:324-336 | No timer of the production host lies further ahead than the longest timeout |
| `CtaphidManners.PacketTimely` | fuzz/src/ctaphid.rs:324-336 | Every packet keeps the host's recorded times in the past and its deadlines bounded |
| `CtaphidHarness.Harness.WriteSelected` | fuzz/src/ctaphid.rs:203-261 | Writing a selected frame reassembles, without a failed check, the reply the oracle has at the front, and adds it to what has left once its last frame has |
| `CtaphidHarness.Harness.Act` | fuzz/src/ctaphid.rs:338-511 | Any one action takes both machines through its step and keeps them consistent, with every assertion of the harness proved; the interrupt flag is raised exactly as the interrupt lemmas say, and only for an app at work; the log and the whole messages on the wire grow by exactly what the action makes them, and stay accounted for |
| `CtaphidHarness.Harness.Drain` | fuzz/src/ctaphid.rs:273-279 | Draining ends, with nothing left to send on either side |
| `CtaphidHarness.Run` | fuzz/src/ctaphid.rs:513-540 | For every sequence of actions the production host and the oracle agree throughout, no assertion of either or of the harness can fail, and without a shutdown both have sent everything in the end; the log is honest, and every CBOR or MSG message the production host has put on the wire is in it, as a delivery of the app's answer or a word of the host's own, with no transaction answered twice or after a later one |
| `CtaphidInterrupt.PacketInterrupt` | crates/pqkey/src/transport/ctaphid_host.rs:767-877 | A packet raises the interrupt flag if and only if it drops work the app still holds (a prompt nobody will poll again, or a transaction that is over and not left to its polls) or cancels a CBOR request the app holds |
| `CtaphidInterrupt.TimeoutInterrupt` | crates/pqkey/src/transport/ctaphid_host.rs:424-470 | A timer raises it if and only if it gives an unanswered prompt up; the early reply to a U2F request does not |
| `CtaphidInterrupt.HolderIsBusy` | crates/pqkey/src/transport/ctaphid_host.rs:609-634 | Whoever holds such work is an app at work, so the flag is never raised for an idle one |
| `CtaphidInterrupt.AnswerInterrupt` | crates/pqkey/src/transport/ctaphid_host.rs:647-714 | Work that is answered is not dropped: the answer leaves the flag as it is |
| `CtaphidTransport.CtaphidHost.TakeInterrupt` | crates/pqkey/src/transport/ctaphid_host.rs:636-639 | Reading the flag clears it |
| `CtaphidTrace.EveryRunHonest` | fuzz/src/ctaphid/model.rs:238-352 | In every run an app's answer goes only to the transaction whose request produced it or, for U2F, at most once to an identical later request on the same channel, before the approval expires and with no INIT of that channel in between; ids released are strictly increasing |
| `CtaphidTrace.LoggedIsQueued` | fuzz/src/ctaphid/model.rs:99-120 | Each delivery, and each word of the host's own, that the log of a step records is the one reply the step queues, with its channel, command, bytes and transaction |
| `CtaphidTrace.OnlyLoggedIsQueued` | fuzz/src/ctaphid/model.rs:136-522 | A step queues no CBOR or MSG message but one its log records, whatever its bytes: an answer of the app, or "cancelled" or "not yet" where the host has cause to say so itself |
| `CtaphidTrace.StepAccounted` | fuzz/src/ctaphid/model.rs:524-546 | Every step keeps the log honest and everything queued or sent in it, and sends at most one response per transaction, in the order of the transactions |
| `CtaphidTrace.AnswersOnce` | fuzz/src/ctaphid/model.rs:288-352 | No two messages on the wire carry the same answer of the app |
| `PinEngine.VerdictNeedsDebit` | crates/pqkey-ctap/src/ctap/pin/state.rs:168-223 | A verdict on the PIN, right or wrong, follows a confirmed debit; only the right PIN succeeds or adds retries; a wrong one costs exactly one |
| `PinEngine.TextIdsExact` | crates/pqkey-ctap/src/ctap/authenticator_config.rs:112-131 | The list of RP IDs is refused if and only if an entry is not text, and is otherwise exactly the entries in order |
| `PinEngine.Engine.SavePinState` | crates/pqkey-ctap/src/ctap/storage.rs:371-402 | Nothing is written over a state that was not read; what a write leaves in the store, confirmed or not |
| `PinEngine.Engine.Load` | crates/pqkey-ctap/src/ctap/storage.rs:78-135 | A state that cannot be read is closed: blocked, with user verification required |
| `PinEngine.Engine.Refresh` | crates/pqkey-ctap/src/ctap/storage.rs:169-240 | An I/O error changes nothing of a state that was read; damage closes it until reset; an unread state is read again |
| `PinEngine.Engine.Reconcile` | crates/pqkey-ctap/src/ctap/storage.rs:250-262 | After a failed reset the live state is the stored one again, or closed and unread |
| `PinEngine.Engine.Debit` | crates/pqkey-ctap/src/ctap/pin/state.rs:183-195 | The retry is spent in the store before anything is compared |
| `PinEngine.Engine.CheckPin` | crates/pqkey-ctap/src/ctap/pin/client_pin.rs:160-206 | The check comes to the specified verdict for every outcome of its two writes, and keeps wrong verdicts plus retries at most 8 in everything a power loss may leave |
| `PinEngine.Engine.VerifyPin` | crates/pqkey-ctap/src/ctap/pin/client_pin.rs:160-206 | A comparison happens only on a state that was read, after a confirmed debit; success needs the right PIN and a confirmed restoration; a state that cannot be read is answered as blocked, or as not set if no PIN was |
| `PinEngine.Engine.StoreNewPin` | crates/pqkey-ctap/src/ctap/pin/client_pin.rs:258-272 | A published PIN is adopted with 8 retries, no forced change and its own length; if it replaces one, both tokens are new and every grant is revoked |
| `PinEngine.Engine.SetPin` | crates/pqkey-ctap/src/ctap/pin/client_pin.rs:220-256 | Succeeds if and only if no PIN is set, the new one is within the policy and its write is published |
| `PinEngine.Engine.ChangePin` | crates/pqkey-ctap/src/ctap/pin/client_pin.rs:275-308 | Succeeds if and only if the old PIN is verified with both writes confirmed, the new one is within the policy, differs if a change is forced, and is published; both tokens are then new and every grant is revoked |
| `PinEngine.Engine.GrantPersistentToken` | crates/pqkey-ctap/src/ctap/pin/client_pin.rs:315-386 | The persistent token is granted if and only if the PIN is verified, no change is forced and the grant is confirmed |
| `PinEngine.Engine.ToggleAlwaysUv` | crates/pqkey-ctap/src/ctap/authenticator_config.rs:18-72 | alwaysUv is inverted by one write, if and only if the request may do so and the write is published; a refused request leaves everything as it was |
| `PinEngine.Engine.NewRpIds` | crates/pqkey-ctap/src/ctap/authenticator_config.rs:112-131 | The three outcomes of the RP ID list, each if and only if |
| `PinEngine.Engine.Validate` | crates/pqkey-ctap/src/ctap/authenticator_config.rs:74-131 | A setMinPINLength request is accepted if and only if the minimum does not fall, a change is forced only on a PIN that is set, and the RP IDs fit; what the accepted record is |
| `PinEngine.Engine.SetMinPinLength` | crates/pqkey-ctap/src/ctap/authenticator_config.rs:74-146 | One write, if and only if the request is authorized and acceptable; the policy only gets stricter, a PIN shorter than the minimum has a forced change pending, a forced change makes both tokens new and revokes the grants, and a refused request leaves the policy unchanged; no power loss can undercut it if and only if the write was confirmed or nothing laxer could be left before |
| `PinEngine.Engine.Reset` | crates/pqkey-ctap/src/ctap/reset.rs:43-70 | A reset that succeeds leaves the defaults, live and stored; one that fails leaves the live state the stored one or closed |
| `PinEngine.Engine.Restart` | crates/pqkey-ctap/src/ctap/storage.rs:78-135 | A restart, also after a power loss that rolls unconfirmed writes back, finds a state that is still sound |
| `PinEngine.Engine.Step` | fuzz/src/sequence.rs:637-718 | Outside reset, whatever a step writes has a policy no laxer than what was there, so only a power loss can take it back; within one power-up the state is written only once read, and an unreadable one stays unreadable |
| `PinEngine.Engine.Run` | fuzz/src/sequence.rs:760-838 | Over every mix of commands, write outcomes, restarts and power losses the live state is the stored one or closed, no PIN whatever is judged wrong more than 8 times between two restorations of its retries, a PIN shorter than the minimum has a change pending, and without a reset a policy that everything the store may hold has reached is never lost again |
| `PinEngine.BoundedThen` | crates/pqkey-ctap/src/ctap/pin/state.rs:197-223 | One more verdict after fewer than 8 wrong ones, or a restoration, keeps every PIN's count of wrong verdicts within 8 |
| `PinEngine.Engine.ConfirmedPolicyStands` | crates/pqkey-ctap/src/ctap/authenticator_config.rs:74-146 | A policy whose write was confirmed stands until a reset, through every failing write, restart and power loss |
| `PinEngine.Engine.LaxerPolicyFound` | crates/pqkey-ctap/src/store/mod.rs:134-142 | Conversely, if the store may hold a laxer state, a power loss that leaves it makes the live policy laxer |
| `PinEngine.UnconfirmedPolicyLost` | crates/pqkey-ctap/src/store/mod.rs:134-142 | A concrete run in which a power loss takes back a minimum PIN length that was published without confirmation |
| `LargeBlobs.MessageBinds` | crates/pqkey-ctap/src/ctap/large_blobs.rs:141-145 | What a fragment's authentication covers fixes its offset and its digest |
| `LargeBlobs.ContentExtends` | crates/pqkey-ctap/src/ctap/large_blobs.rs:154-165 | One more contiguous fragment in time extends an uninterrupted write |
| `LargeBlobs.Engine.Observe` | crates/pqkey-ctap/src/ctap/large_blobs.rs:40-51 | A staged write outlives a command only if that is a large-blob command, in time and under the same token |
| `LargeBlobs.Engine.Get` | crates/pqkey-ctap/src/ctap/large_blobs.rs:78-108 | A get returns exactly the slice asked for of the committed array, or of the initial one if it cannot be read |
| `LargeBlobs.Engine.Authorize` | crates/pqkey-ctap/src/ctap/large_blobs.rs:134-150 | A protected fragment passes if and only if its parameter is the token's own for this offset and fragment, and the token may write |
| `LargeBlobs.Engine.Set` | crates/pqkey-ctap/src/ctap/large_blobs.rs:110-176 | Exactly the acceptable fragments are staged; any other leaves the committed array, and either keeps or drops the staged one |
| `LargeBlobs.Engine.Stage` | crates/pqkey-ctap/src/ctap/large_blobs.rs:154-176 | A complete array replaces the committed one if and only if its hash is right and the write succeeds; a failed commit keeps it staged |
| `LargeBlobs.Engine.Handle` | crates/pqkey-ctap/src/ctap/large_blobs.rs:54-176 | The committed array changes only to the whole of the accepted fragments, and a request succeeds only if it is an acceptable get or set |
| `LargeBlobs.Engine.WriteArray` | fuzz/src/sequence.rs:1008-1169 | Writing a valid array in fragments of any sizes, with any pauses under 30 seconds, commits it |
| `LargeBlobs.Engine.ReadArray` | fuzz/src/sequence.rs:1047-1082 | Reading in chunks of any size returns the committed array |
| `LargeBlobs.Engine.RoundTrip` | fuzz/src/sequence.rs:1008-1169 | Whatever the fragments and the chunks, what was written is read |
| `LargeBlobs.Engine.Run` | fuzz/src/sequence.rs:1008-1169 | In every run the committed array has a valid hash and is the initial one or the concatenation of one uninterrupted, contiguous write from offset 0 under one token |
| `Tokens.NarrowsTransitive` | crates/pqkey-ctap/src/ctap/pin/token.rs:148-314 | Two steps that each leave the token, narrow it, end it or issue one with a new number do so together; `Management.Manager.Run` carries this over a run |
| `Tokens.TokenState.BeginUsing` | crates/pqkey-ctap/src/ctap/pin/token.rs:148-169 | A new token gets a number of its own and ends the one before it |
| `Tokens.TokenState.Observe` | crates/pqkey-ctap/src/ctap/pin/token.rs:196-209 | A token is in use if and only if it is within its limits: 600 seconds, and 30 until it is first used |
| `Tokens.TokenState.Verify` | crates/pqkey-ctap/src/ctap/pin/token.rs:215-230 | Verification succeeds if and only if the token is live, of that protocol and the signature is its own; only then does it count as used |
| `Tokens.TokenState.Consume` | crates/pqkey-ctap/src/ctap/pin/token.rs:265-273 | User presence leaves lbw and nothing else, and keeps the binding |
| `Tokens.TokenState.Bind` | crates/pqkey-ctap/src/ctap/pin/token.rs:307-314 | The first RP ID bound stays |
| `Tokens.TokenState.AuthorizeRpOperation` | crates/pqkey-ctap/src/ctap/pin/state.rs:383-401 | An operation is authorized if and only if the token is live, verified, has the permission and is bound to that RP or to none, and it is then bound to it |
| `Order.SortDedupExact` | crates/pqkey-ctap/src/ctap/credential_management.rs:218-231 | The RP list is strictly increasing and holds exactly the RP IDs of the listing |
| `Management.ListingExact` | crates/pqkey-ctap/src/ctap/credential_management.rs:169-173 | The listing holds exactly the discoverable credentials that can be read, each once |
| `Management.MatchingExact` | crates/pqkey-ctap/src/ctap/credential_management.rs:338-366 | The credentials of an RP are exactly those of the listing with that RP ID hash, each once |
| `Management.ContinuesUnderItsGrant` | crates/pqkey-ctap/src/ctap/credential_management.rs:493-536 | What lets an enumeration go on is the very grant that began it, with no wider powers than it had then |
| `Management.Manager.ContinuationAuthorized` | crates/pqkey-ctap/src/ctap/credential_management.rs:493-536 | A continuation is authorized if and only if its grant is live, verified, of the same family and still covers the RP |
| `Management.Manager.NextRp` | crates/pqkey-ctap/src/ctap/credential_management.rs:252-271 | The next RP is returned if and only if the grant is live and one is left; the RPs returned are always a prefix of the list |
| `Management.Manager.NextCredential` | crates/pqkey-ctap/src/ctap/credential_management.rs:369-394 | The next credential that can be read is returned, only under a live grant, each at most once and in order; everything skipped is there but corrupt |
| `Management.Manager.ReadNext` | crates/pqkey-ctap/src/ctap/credential_management.rs:382-394 | The loop skips exactly the corrupt credentials: none on the list has been deleted |
| `Management.Manager.OnlyCorrupt` | fuzz/src/sequence/management.rs:454-463 | While an enumeration is under way every credential on its list is in the store, so what it skips is corrupt |
| `Management.Manager.Insert` | crates/pqkey-ctap/src/ctap/make_credential.rs:623-639 | A discoverable credential is stored if and only if its ID is free and it replaces one or finds room; it replaces exactly the discoverable ones of its account and ends the enumerations; another one changes no listing and leaves them |
| `Management.Manager.BeginRps` | crates/pqkey-ctap/src/ctap/credential_management.rs:218-246 | The snapshot is every RP with a readable discoverable credential |
| `Management.Manager.BeginCredentials` | crates/pqkey-ctap/src/ctap/credential_management.rs:338-363 | The snapshot is every such credential of the RP, the most recent first |
| `Management.Manager.Authenticate` | crates/pqkey-ctap/src/ctap/credential_management.rs:651-698 | A begin or a change is authorized if and only if its parameter was made with the secret of a grant that covers it: a granted persistent token for reading, or the live token with the permission and scope; a persistent grant never authorizes a change |
| `Management.Manager.DeleteCredential` | crates/pqkey-ctap/src/ctap/credential_management.rs:399-419 | Succeeds if and only if a discoverable credential with that ID is there and the deletion works; only it goes, and the enumerations are over before the store is touched, also if the deletion then fails |
| `Management.Manager.UpdateUser` | crates/pqkey-ctap/src/ctap/credential_management.rs:424-462 | Succeeds if and only if the credential can be read, is of that user ID and the write works; its name is then the one sent and nothing else changes |
| `Management.Manager.RpOperation` | crates/pqkey-ctap/src/ctap/pin/state.rs:383-408 | makeCredential and getAssertion are authorized exactly as the token's scope says, and only narrow it |
| `Management.Manager.Handle` | crates/pqkey-ctap/src/ctap/credential_management.rs:582-719 | Every request keeps both enumerations true to the store and to their grants; a begin or a change succeeds only with the MAC of a grant that covers it in permission and scope, a change never under a persistent one; a next request answers with the next entry of its list under the grant that began it, past nothing but corrupt credentials; a change of credentials ends the enumerations, and so does a refused request of the other family |
| `Management.Manager.ListRps` | fuzz/src/sequence/management.rs:288-366 | Begin and next until the end list every RP with a readable credential, once, in order |
| `Management.Manager.ListCredentials` | fuzz/src/sequence/management.rs:288-366 | ... and every readable credential of an RP, once |
| `Management.Manager.Run` | fuzz/src/sequence/management.rs:74-142 | Over every run of issuances, operations, changes, corruption and requests, enumerations stay true to the store and to grants that only narrow |
| `Seat.Watcher.Look` | crates/pqkey/src/seat.rs:177-202 | A look records the current state, or one that may be anyone's |
| `Seat.Watcher.WaitForTurn` | crates/pqkey/src/seat.rs:218-260 | The wait ends on a look at the current state, successfully if and only if that allows a device, and runs the hold action at most once |
| `Seat.Watcher.Plugged` | crates/pqkey/src/seat.rs:264-268 | The device is created under the record the last look read |
| `Seat.Watcher.Check` | crates/pqkey/src/seat.rs:274-302 | A check passes if and only if the device is not retired, the seat is in the very state it was created under and a look, if one is needed, can see that; any rewrite, removal, failed look or switch away and back retires it |
| `Seat.Watcher.TryRead` | crates/pqkey/src/seat.rs:341-345 | A report is handed on only if the check after it passes |
| `Seat.Watcher.Write` | crates/pqkey/src/seat.rs:347-350 | A report is sent only if the check before it passes |
| `Seat.Watcher.Run` | crates/pqkey/src/seat.rs:149-302 | In every run each report that passed did so in the state its device was created under, and that state let the owner have the device |
| `MlDsa.ExpandedKeyIsWellFormed` | crates/pqkey-mldsa/src/lib.rs:763-789 | The streaming check accepts exactly the keys that are long enough and whose coefficients all unpack to at most 2 eta, for all three parameter sets |
| `MlDsa.AllInRange` | crates/pqkey-mldsa/src/lib.rs:773-789 | The accumulator loop, in machine operations: true if and only if every packed field is in range, ending with no bit held and never holding more than 11 |
| `MlDsa.HoldsByte` | crates/pqkey-mldsa/src/lib.rs:779-781 | A byte or-ed in above the bits held appends its bits |
| `MlDsa.HoldsField` | crates/pqkey-mldsa/src/lib.rs:782-786 | Mask and shift take off exactly the next packed field |
| `MlDsa.WordFits` | crates/pqkey-mldsa/src/lib.rs:776-786 | The accumulator never holds more than 11 bits |
| `MlDsa.MachineWord` | crates/pqkey-mldsa/src/lib.rs:780-780 | On words of the accumulator's size the machine's or, shift and mask take a byte in and a field off, and no bit is shifted out of 32 |
| `MlDsa.MaskIsLow` | crates/pqkey-mldsa/src/lib.rs:783-783 | The mask takes the low bits of any word |
| `MlDsa.OrAdds` | crates/pqkey-mldsa/src/lib.rs:780-780 | An or above the bits held adds |
| `MlDsa.ShlMultiplies` | crates/pqkey-mldsa/src/lib.rs:780-780 | A 32-bit shift that loses nothing multiplies |
| `MlDsa.LayoutFits` | crates/pqkey-mldsa/src/lib.rs:152-158 | The three layouts take 3 or 4 bits a coefficient and whole bytes |
| `Ecdsa.DeriveScalar` | crates/pqkey-ctap/src/crypto/ecdsa.rs:90-117 | A scalar is derived exactly when the order has more than one element and its bits fit the buffer; it is the reduction of the hash output's first bytes, in [1, n - 1] |
| `Ecdsa.PreimagesEven` | crates/pqkey-ctap/src/crypto/ecdsa.rs:112-113 | Every scalar has the floor or the ceiling of 2^(8L)/(n - 1) preimages, and which |
| `Ecdsa.BiasBound` | crates/pqkey-ctap/src/crypto/ecdsa.rs:66-117 | With 64 bits more than the order has, preimage counts differ by a factor of at most 1 + 2^-64 |
| `Ecdsa.DerivationUniform` | crates/pqkey-ctap/src/crypto/ecdsa.rs:66-117 | The length the code takes gives that bound, over all byte strings of that length, which stand for the numbers one to one |
| `Ecdsa.LengthFits` | crates/pqkey-ctap/src/crypto/ecdsa.rs:101-104 | The length is the least whole number of bytes for 64 bits more, and fits the buffer for orders of up to 576 bits |
| `Numbers.FromBeBijective` | crates/pqkey-ctap/src/crypto/ecdsa.rs:111-111 | Reading byte strings big-endian is one to one |
| `Numbers.ToBeBijective` | crates/pqkey-ctap/src/crypto/ecdsa.rs:111-111 | ... and onto the numbers below 2^(8L) |
| `Ecdsa.LeadingZeros` | crates/pqkey-ctap/src/crypto/ecdsa.rs:102-111 | The zeros in front of the output in the buffer change nothing |
| `Der.SplitEncode` | crates/pqkey/src/attestation.rs:153-175 | Splitting undoes DER encoding, whatever follows |
| `Der.SplitShape` | crates/pqkey/src/attestation.rs:153-175 | Whatever splits off is a tag, a length and that much: at least two bytes, contents below 2^32 |
| `Der.SplitPrefix` | crates/pqkey/src/attestation.rs:153-175 | An element cut anywhere is not one |
| `Der.NextElement` | crates/pqkey/src/attestation.rs:153-175 | The cursor moves past a complete element and not otherwise |
| `Der.CertificateAaguid` | crates/pqkey/src/attestation.rs:192-230 | The walk, whose loops end, computes the specified AAGUID |
| `Der.FirstDecides` | crates/pqkey/src/attestation.rs:210-229 | The first extension with the AAGUID OID decides, whatever follows it |
| `Der.OnlyFirstDecides` | crates/pqkey/src/attestation.rs:210-229 | ... and no AAGUID comes from anything else |
| `Der.TruncatedCertificate` | crates/pqkey/src/attestation.rs:192-230 | A certificate cut short has none |
| `Der.CertificateRoundTrip` | crates/pqkey/src/attestation.rs:192-230 | Whatever else a certificate holds, an AAGUID encoded into it is found |
| `Cbor.CanonicalIdempotent` | fuzz/src/cbor.rs:24-47 | Canonicalizing twice is canonicalizing once |
| `Cbor.CanonicalPermutes` | fuzz/src/cbor.rs:28-44 | Each map's entries are permuted into the order of major type, length and bytes |
| `Cbor.CanonicalOrdered` | fuzz/src/cbor.rs:24-47 | ... at every depth |
| `Cbor.OrderedIsCanonical` | fuzz/src/cbor.rs:24-47 | A value in order at every depth is its own canonical form |
| `Cbor.LookupPreserved` | fuzz/src/cbor.rs:63-76 | First-match lookup of an integer or a text gives the canonical form of what it gave before, duplicates or not |
| `Cbor.KeyTotal` | crates/pqkey-ctap/src/ctap/cbor.rs:395-400 | The order of encoded keys is total and strict |
| `Cbor.BoundHolds` | crates/pqkey-ctap/src/cbor.rs:8-22 | The length bound is at least the length of the encoding, for every nested value |
| `CborAcceptor.CanonicalItemEnd` | crates/pqkey-ctap/src/ctap/cbor.rs:324-381 | The recursive check with its loops computes the specified end of the item |
| `CborExact.AcceptExact` | crates/pqkey-ctap/src/ctap/cbor.rs:324-381 | The encoding of a value is accepted, to its very end, if and only if the value has no tags, strictly ordered keys and at most 16 levels |
| `CborExact.AcceptedMeans` | crates/pqkey-ctap/src/ctap/cbor.rs:324-381 | Whatever is accepted is the encoding of such a value |
| `CborExact.CanonicalAccepted` | fuzz/src/cbor.rs:14-47 | A request made canonical is accepted if and only if it has no tags, no two keys that come out the same and at most 16 levels |
| `CborExact.HeadRead` | crates/pqkey-ctap/src/ctap/cbor.rs:146-164 | A header that was written is read back |
| `CborExact.HeadWritten` | crates/pqkey-ctap/src/ctap/cbor.rs:146-164 | A header that is as short as it can be is the one that would be written |
| `CborExact.SortStrict` | fuzz/src/cbor.rs:37-43 | Sorted keys are strictly increasing if and only if there were no duplicates |

## Left out

- Unsigned 64-bit overflow: times, tokens, ids, issue counts and generations are unbounded naturals, so saturating additions and wrapping counters do not appear.
- CtaphidHost entry points outside the harness: `app_presence_finished`, `set_u2f_enabled`, `reset_u2f` and the setters of version and capabilities, which stay at what the fuzz target sets.
- Composite fuzz actions (whole messages, several reports, aborts): each is a sequence of the primitive actions `CtaphidHarness.Run` takes.
- Fuzz input generation, seeds, logging and replay: test plumbing.
- SHA-256, HMAC, SHAKE256, signatures, key agreement and PIN decryption: arbitrary functions, or an outcome given to the step.
- PinEngine.Engine.Reset: user presence and the reset window come before it, and a failed clear leaves the old record, the defaults or damage, as the file store documents.
- PinEngine.Engine.SetPin: the new PIN arrives as its hash, its length and whether it is complex; padding and UTF-8 decoding are not modelled.
- PinEngine.Engine.GrantPersistentToken: a transient token's issuance is in `Tokens`; here only the persistent one is stored.
- LargeBlobs.Engine.Handle: the clock stands still during one request, and a failed store write has changed nothing.
- Management.Manager.Handle: parameters of a wrong CBOR type, response maps and truncation of names are not modelled; permissions are a set and not a bit mask.
- Management.Manager.Insert: the creation order is the order of the list; sizes and types of the record are not modelled.
- Seat.Watcher.Run: a state that cannot be read has no record, and messages to the log are left out.
- Ecdsa.DeriveScalar: the order is positive; limb arithmetic and zeroization are not modelled.
- Cbor.Canonical: the library's stable sort is insertion from the right, and a float is the bytes it is written in.
- CborAcceptor.CanonicalItemEnd: whether text is UTF-8, and the decoder behind the check, are outside it.
- The credential file store, envelopes and repair, getAssertion and makeCredential beyond the token, U2F, uhid and termios code, service start-up and the command line: wrappers, or not core.
- Stack scrubbing, zeroization and the wiping allocator: memory effects outside such a model.
