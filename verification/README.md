# A verified model of the TEAP tester

This project models, in Dafny, the TEAP peer that `teap_tester` runs against a RADIUS server, the
wire formats it stands on, and two string algorithms of `teap_gui`, and proves what they promise.

`dafny verify dfyconfig.toml` checks the whole project.

## The modules

| module | models |
|---|---|
| `SessionSpec` | one step of a session, as functions of its state, the reply and the world's answers |
| `Session` | `TEAPSession`, the object whose methods update its fields; each method is proved equal to its function in `SessionSpec`, and the whole run to `SessionSpec.Run` |
| `SessionSafety`, `SessionRuns` | the invariant of every run, and what it gives: success is earned, in which tunnel, a verdict stands, legs, rounds and derivations |
| `Server`, `Witnesses` | a server that a session accepts, and runs that it brings about: one that succeeds, and those behind the findings below |
| `KeySchedule` | the key fields as folds over the derivations, section 6.2 of RFC 9930 |
| `SessionWire`, `Fragments` | progress, echoed identifiers, and the four-layer round trip of a fragmented flight |
| `Verdict`, `Records`, `Answers`, `Bindings` | which reply decides a run, how a packet is taken in, what each message is answered with, and what a binding is accepted for, written from the RFCs |
| `Exchanges` | what each action puts on the wire, and which reply belongs to which request |
| `CryptoBinding` | TLS-PRF, IMCK, Compound MACs, Binding Requests and Responses |
| `Authenticity` | which datagrams are accepted as genuine, octet by octet |
| `Radius`, `Coa`, `Eap`, `Tlv` | packets, attributes, TLVs, framing and reassembly |
| `Md4`, `Md4Bits`, `DesKey` | MD4 against the operations of RFC 1320, and those bit by bit; DES key spreading |
| `Authorization` | the reply-attribute multimap and Vendor-Specific attributes |
| `Rewriting`, `Template`, `TemplateFunctions`, `TemplateMeaning` | the template evaluator, its termination, what its functions compute, and its agreement with a recursive semantics |
| `Pem` | certificate chain splitting and trimming |
| `Bytes`, `Digits`, `Crypto` | octets, network order, faults; numbers and hex as text; hash and MAC functions known only by their lengths |

A run takes a sequence of `Oracle` values, one a step, which hold every answer from outside: what
followed each transmission, what TLS produced, accepted or exported, and the random challenges and
authenticators. They are arbitrary, so a theorem about every sequence is one about every server.
Each exception of the source is a `Fault`. Three ghost fields are added to the session: the history
of its milestones, the plaintexts its outer tunnel gave, and the packets it sent, each with how
often.

What the proofs found of the code:

- A second TEAP/Start brings up a new tunnel and a new session key seed, but the S-IMCK chains
  go on from the seed of the first derivation (`KeySchedule.ChainsOutliveTheirSeed`). They start
  from the session's seed exactly when the last tunnel before the first derivation and the last of
  all gave the same one (`KeySchedule.RunFollowsTheSchedule`).
- A binding counts for later tunnels too: _crypto_binding_done stays set across a TEAP/Start, so a
  lone Result(Success) in a tunnel that never carried a Crypto-Binding is acknowledged
  (`SessionRuns.ResultOfAnotherTunnel`, and `Witnesses.TwoTunnelsSucceed` for a whole run), with
  the exact condition in `SessionRuns.ResultInBoundTunnelExactlyWhen`.
- The comment on _derive_binding_keys says a method with no EMSK leaves the EMSK chain where it
  was. Only an Identity-Type drops the inner tunnel, so an MS-CHAPv2 method that follows EAP-TLS
  without one is bound with the EMSK of that earlier method (`SessionRuns.EmskLeftOver`, and
  `Witnesses.EmskLeftOverHappens` for a whole run), with the exact condition in
  `SessionRuns.EmskOfAnotherMethod`. The model follows the code.
- The comment in _bind says a binding repeated for a bound method reuses its keys. After two legs
  and a first binding, one round is counted and the last leg is bound, and the same request
  derives keys again: `SessionRuns.RepeatDerivesExactlyWhen` has the exact condition, and the run
  of `Witnesses.EmskLeftOverHappens` ends in such a state.
- A lone Result(Success) is acknowledged on an earlier binding alone, whatever legs have run
  unbound since; and a first binding with no leg already counts a round, so a first leg after it
  derives no keys of its own: `SessionRuns.UnboundLegAcknowledged` and `MethodWithoutKeys`, with
  the exact conditions in `AcknowledgesExactlyWhen` and `DerivesExactlyWhen`.
- A Result(Failure) beside an Identity-Type or EAP-Payload TLV, with neither a PAC nor a
  Crypto-Binding, is passed over: `SessionRuns.FailurePassedOver`, with the exact condition in
  `SessionRuns.FailureHeededExactlyWhen`.
- The fallback of the template evaluator's search, a call that is not innermost, is never taken
  (`Template.PickFindsACall`).
- `coa.decode_request` compares the Message-Authenticator with octets of the datagram as received,
  not of the part within its length field: `Coa.CutShortAccepted`, with the exact condition in
  `Coa.TrailingOctetsMatterExactlyWhen`.
- An Intermediate-Result beside a Result is answered with an Intermediate-Result only if a
  Crypto-Binding came too, though the comment on _handle_last_binding_and_result has it always
  answered so: `Answers.AcknowledgementSays` has the exact condition.
- An EAP-TLS packet with a length and no data reads as four octets of data
  (`Answers.TlsDataReads`).
- The docstring of trim_chain has no_root drop any self-signed certificate; the leaf is kept
  whatever it is (`Pem.NoRootKeepsExactly`).
- split_pem_chain takes no notice of a begin marker that shares its dashes with the end marker
  before it (`Pem.SplitsWhenClosed`).

## Model

| member | source | states |
|---|---|---|
| SessionRuns.SuccessIsEarned | teap_tester/state_machine.py:149-185 | For every server: a run reports success only in DONE, is DONE only with the Result acknowledged, acknowledges only after a Crypto-Binding; and then its history holds, in this order, a key derivation, the Crypto-Binding of a message that an outer tunnel had just given, whose Compound MAC was recomputed under the keys, hash and outer TLVs of that moment and matched, and the acknowledgement of a Result(Success) that an outer tunnel, the same or a later one, had just given |
| Verdict.RepliesDecide | teap_tester/state_machine.py:149-187 | In every run, success is reported exactly when the last reply processed was an Access-Accept whose EAP packet, if any, reads, or an Access-Challenge with EAP-Success, met after the Result was acknowledged; and an Access-Reject, wherever it comes, is the last reply processed and leaves the session failed |
| Verdict.DoneExactlyWhen | teap_tester/state_machine.py:197-253 | A reply takes a session that goes on to DONE exactly so; a reject, another code, a challenge with no EAP packet or one that is neither Request nor Success, and a success too early end it in FAILED with nothing sent |
| Verdict.RejectFails | teap_tester/state_machine.py:212-221 | An Access-Reject fails the session whatever was acknowledged; only one whose EAP packet cannot be read raises instead |
| SessionRuns.ResultInBoundTunnelExactlyWhen | teap_tester/state_machine.py:427-441 | In every run the Result acknowledged came in a tunnel where a binding was verified, as RFC 9930 section 3.6.6 asks, exactly when its message had a Crypto-Binding or no tunnel had come up between the last binding and that message |
| SessionRuns.ResultOfAnotherTunnel | teap_tester/state_machine.py:315-325 | The other case: after a binding, a tunnel that comes up and brings a lone Result(Success) has it acknowledged with no binding of its own |
| Witnesses.SuccessHappens | teap_tester/state_machine.py:149-187 | For every configuration with a retry and room for short EAP packets (an outer identity of at most 248 octets, attributes that fit and encode to at most 60000) there is a server for which a run reports success: TEAP/Start, a tunnel with Result(Success) and Crypto-Binding, Access-Accept |
| Witnesses.TwoTunnelsSucceed | teap_tester/state_machine.py:277-331 | For any two seeds, and such a configuration, there is a run that reports success with a binding in a tunnel of the first seed and a lone Result(Success) in a later tunnel of the second: acknowledged in a tunnel without a binding, on keys of a seed that is not the session's |
| Witnesses.EmskLeftOverHappens | teap_tester/state_machine.py:618-678 | For any EMSK, and such a configuration with a password and an identity under 1000 octets, there is a run that reports success with EAP-TLS, MS-CHAPv2 and one binding for both: the keys for MS-CHAPv2 take the EMSK of the EAP-TLS tunnel, only the last leg is bound, and the binding sent again would derive keys again |
| SessionRuns.VerdictStands | teap_tester/state_machine.py:158-161 | A run that reached DONE or FAILED is over: no further reply changes state or verdict, and FAILED is never reported as success |
| SessionRuns.AcknowledgesExactlyWhen | teap_tester/state_machine.py:381-441 | Of the eleven ways a message is dispatched, exactly these acknowledge: Result(Success) without a PAC, with a Crypto-Binding that verifies and no failed Intermediate-Result, or alone with an earlier binding and no Identity-Type or EAP-Payload taken first |
| SessionRuns.UnboundLegAcknowledged | teap_tester/state_machine.py:427-441 | A leg that was never bound does not keep a lone Result(Success) from being acknowledged after another leg's binding |
| SessionRuns.FailureHeededExactlyWhen | teap_tester/state_machine.py:381-441 | A Result other than success fails the session, or raises at an unreadable Intermediate-Result beside a binding, except beside an Identity-Type or EAP-Payload with neither PAC nor Crypto-Binding, where the message is handled as if it had no Result |
| SessionRuns.FailurePassedOver | teap_tester/state_machine.py:412-419 | Such a message: Result(Failure) with an Identity-Type of a held credential is answered with that Identity-Type, in INNER_IDENTITY |
| SessionRuns.LegsAndRounds | teap_tester/state_machine.py:553-567 | In every state a run can stop in, bound legs are at most the binding rounds, these at most max(1, legs), and every round is one key derivation of the history |
| SessionRuns.DerivesExactlyWhen | teap_tester/state_machine.py:618-623 | A Binding Request derives keys, and counts a round, exactly when its fields are valid and it is the first or more legs ran than rounds were counted; otherwise no key changes |
| SessionRuns.MethodWithoutKeys | teap_tester/state_machine.py:618-622 | The first method after a binding without legs is bound, or refused, under the keys of that binding |
| SessionRuns.DerivationsServeMethods | teap_tester/state_machine.py:618-622 | Every derivation of a run takes the MSK of the last inner method that succeeded, or none; is the first or has a method not yet counted before it; and takes an EMSK only while an inner tunnel is open since the last Identity-Type; there is one recorded leg for each method that succeeded |
| SessionRuns.EmskOfAnotherMethod | teap_tester/state_machine.py:666-678 | Once the server's Success holds the response that MS-CHAPv2 expects, the derivation for that method, which has no EMSK, takes one and the EMSK CMK is there exactly when an inner tunnel of an earlier method is still held and exports one; the comment at lines 655-657 promises none |
| SessionRuns.EmskLeftOver | teap_tester/inner_mschapv2.py:40-71 | From any state with an EAP-TLS leg and its tunnel: a Challenge, a Success and a Binding Request leave a derivation for MS-CHAPv2 from the EMSK of that tunnel |
| SessionRuns.RepeatedBinding | teap_tester/state_machine.py:618-648 | A binding for methods already bound changes no key, and the same request, to any later state with those keys, is answered with the same bytes or refused again |
| SessionRuns.RepeatDerivesExactlyWhen | teap_tester/state_machine.py:615-620 | The comment promises that a binding repeated for a bound method reuses its keys: sent again right after a first, the same valid request derives keys again exactly when two or more legs had run that no round counted, though the first answer bound the last of them |
| SessionSafety.RunKeeps | teap_tester/state_machine.py:149-185 | After any run the history replays to the session's seed, keys, rounds and flags, and each of its events was admissible where it stands |
| SessionSafety.StepKeeps | teap_tester/state_machine.py:197-253 | Every reply, through all handlers and the exchanges they end with, keeps that invariant |
| SessionSafety.BindKeeps | teap_tester/state_machine.py:594-648 | Verifying a Binding Request keeps it, whether the request is answered or refused after its keys were derived |
| SessionSafety.AnsweredMeansGenuine | teap_tester/state_machine.py:623-646 | A request is answered only when at least one Compound MAC could be checked and each such MAC matched: one with only an EMSK MAC is refused when the inner method had no EMSK |
| SessionSafety.DispatchMessageKeeps | teap_tester/state_machine.py:381-448 | Every one of the eleven dispatch branches keeps the invariant |
| SessionSafety.SendFragmentsAgrees | teap_tester/state_machine.py:846-878 | However the server acknowledges fragments, sending them touches no key, flag, leg or history |
| Answers.MessageAnswered | teap_tester/state_machine.py:381-448 | Read back TLV by TLV, every message is answered with exactly the TLVs it is owed, or begins with them where an identity or inner packet is answered too (RFC 9930 sections 3.6 and 4.2) |
| Answers.AcknowledgementSays | teap_tester/state_machine.py:755-842 | A message that earns the acknowledgement is answered with Result(Success), with the Binding Response exactly when it had a Crypto-Binding, and with Intermediate-Result(Success) exactly when it had one beside that binding |
| Answers.SuccessSaidExactlyWhen | teap_tester/state_machine.py:381-448 | Result(Success) is said exactly when the Result or a PAC is acknowledged |
| Answers.FailureSaidExactlyWhen | teap_tester/state_machine.py:680-716 | Result(Failure) is said exactly when the message fails the session and anything is answered, first, and with at most an Error besides |
| Answers.ErrorSaidExactlyWhen | teap_tester/state_machine.py:680-692 | Error 2001 is said exactly when a binding acted on does not verify, 2002 exactly when TLVs do not fit together, and no other Error ever |
| Answers.PlaintextAnswered | teap_tester/state_machine.py:351-379 | A plaintext with unsupported mandatory TLVs is answered with a NAK for each, in order, with vendor and type, and is fatal beside a Result; any other as its message is owed (sections 4.2.5 and 4.3) |
| Records.FragmentsGiveTheWhole | teap_tester/state_machine.py:257-275 | However the server cuts a record, its fragments are each acknowledged and give the whole record, which is then fed or decrypted once |
| Records.WholeTaken | teap_tester/state_machine.py:257-275 | A packet without fragments is a record, with its length or without, whatever version its flags name |
| Records.HandshakeFed | teap_tester/state_machine.py:297-337 | A handshake record is answered with the flight, in fragments while it goes on; once the tunnel is up its seed and hash are taken before the last flight is sent, or what came with the server's last is dispatched, or that is acknowledged |
| Records.RecordOpened | teap_tester/state_machine.py:341-349 | A tunnel record's plaintext is noted and dispatched, and an empty one acknowledged |
| Answers.IdentityTypeSays | teap_tester/state_machine.py:450-498 | An Identity-Type request is answered with the type asked for if a credential is held for it, or else the other one, before what answers an inner packet; with no credential the session fails without a word (section 4.2.3) |
| Answers.IdentityOrNakSays | teap_tester/state_machine.py:502-544 | An inner Identity request is answered with the identity of the type settled; a method without credential with a NAK toward the one there is |
| Answers.InnerSuccessSays | teap_tester/state_machine.py:502-523 | Inner EAP-Success is answered with what is owed before it, or acknowledged if that is nothing; any code but Request and Success fails the session |
| Answers.InnerTlsSays | teap_tester/inner_tls.py:42-80 | An inner handshake record is answered with what the tunnel puts out, or its first flight at the start, in an EAP-TLS response without flags |
| Answers.TlsSucceedsExactlyWhen | teap_tester/inner_tls.py:62-80 | A record fed to the inner tunnel makes EAP-TLS succeed exactly when the tunnel is up then, with a leg for the current identity and the exported MSK or 64 zeros |
| Answers.TlsDataReads | teap_tester/inner_tls.py:15-26 | tls_data takes back the data of an EAP-TLS packet with or without a length, but reads the length as data when there is nothing after it |
| Answers.MschapChallengeSays | teap_tester/inner_mschapv2.py:80-115 | The response to a challenge has the layout of RFC 2759 section 4: identifier, length, peer challenge, eight zeros, the NT-Response of both challenges, name and password, flags, and the name |
| Answers.MschapSucceedsExactlyWhen | teap_tester/inner_mschapv2.py:50-71 | MS-CHAPv2 succeeds, with a leg for the name answered and the session key for its MSK, exactly when the server's message holds the authenticator response to that challenge; any other fails the session |
| Bindings.BoundExactlyWhen | teap_tester/state_machine.py:594-648 | A Binding Request is answered exactly when it is well formed octet by octet and every MAC it names that the keys can check is the HMAC over its TLV, the EAP type and the server's outer TLVs, under the hash of the cipher suite, with one at least (sections 4.2.13 and 6.2.4) |
| Bindings.BoundSays | teap_tester/state_machine.py:623-648 | The Binding Response octet by octet: the request's fields, Sub-Type 1, flags naming the MACs there are, the last nonce bit set, and both MACs over the response itself or zeros; an MSK MAC exactly for an MSK MAC, an EMSK MAC exactly when there is a key |
| Bindings.AuthorityKept | teap_tester/state_machine.py:277-295 | TEAP/Start leaves for the MACs the value of the Authority-ID TLV without its header, or the header alone when the value is empty |
| KeySchedule.RunFollowsTheSchedule | teap_tester/state_machine.py:650-678 | After any run S-IMCK and CMK are the fold of IMCK over the MSKs of all derivations, S-IMCK of the EMSK chain over only those with an EMSK, the EMSK CMK is there exactly when the last had one, and lengths are 40 and 20; the folds start at the seed of the last tunnel before the first derivation, the session's seed is that of the last tunnel of all, and these are the same tunnel's unless one came up after the first derivation (RFC 9930 section 6.2) |
| KeySchedule.SeedInForce | teap_tester/state_machine.py:659-661 | While no other tunnel came up since the first derivation, the chains' seed is that of the last tunnel |
| KeySchedule.ChainsOutliveTheirSeed | teap_tester/state_machine.py:315-317 | From any state of a session that has derived keys: when another tunnel comes up, the session takes its seed and every key stays the fold from the earlier seed |
| KeySchedule.ReplayIsScheduled | teap_tester/state_machine.py:650-678 | The same for any admissible history, wherever its derivations come from |
| KeySchedule.DerivedAgrees | teap_tester/state_machine.py:662-678 | One derivation advances each chain by one IMCK of the RFC, independently of the other |
| KeySchedule.SessionKeysAgree | teap_tester/crypto_binding.py:45-56 | compute_session_keys gives the keys of the first derivation on the seed cut to 40 octets or filled with zeros, for an empty and a short MSK too |
| CryptoBinding.TlsPrf | teap_tester/crypto_binding.py:16-26 | The loop returns the first n octets of the P_hash stream of RFC 5246 section 5 |
| CryptoBinding.PrfIsPrefix | teap_tester/crypto_binding.py:16-26 | Any number of blocks that reaches n octets gives the same n octets; shorter outputs are prefixes of longer ones |
| KeySchedule.ImckAgrees | teap_tester/crypto_binding.py:29-42 | compute_imck on a 40-octet chain value is the RFC's IMCK[j] of the key's first 32 octets, zero-padded |
| KeySchedule.ImsksAgree | teap_tester/state_machine.py:662-678 | IMSK_MSK is the MSK's first 32 octets, zeros where it is shorter, and IMSK_EMSK the first 32 octets of mac(EMSK, mac(EMSK, S) + S) with S the label TEAPbindkey@ietf.org and 00 00 40 (RFC 9930 section 6.2.1) |
| CryptoBinding.ComputeCompoundMac | teap_tester/crypto_binding.py:83-94 | Zeroing both MAC fields in a copy gives the MAC over the TLV header, the 36 fixed octets, 40 zeros, the EAP type and the outer TLVs (RFC 9930 section 6.3) |
| CryptoBinding.MacOfTlv | teap_tester/crypto_binding.py:83-94 | The Compound MAC is the HMAC over the encoded Crypto-Binding TLV with both MAC fields zeroed, the octet 55 and both sides' outer TLVs, cut to 20 octets |
| CryptoBinding.MacCovers | teap_tester/crypto_binding.py:83-94 | Two Compound MACs agree under every HMAC exactly when key, first 36 octets and outer TLVs are the same: it covers these, all of them, and nothing else |
| CryptoBinding.BuildResponse | teap_tester/crypto_binding.py:112-136 | The in-place edits build the response as specified, or refuse when no MAC would be present |
| CryptoBinding.ResponseAnswers | teap_tester/crypto_binding.py:97-153 | The response to every valid request has Sub-Type 1, flags naming exactly the MACs present, the request nonce plus one as a 256-bit number, zeros for an absent MAC, each present MAC equal to the Compound MAC recomputed over the response, and is itself no valid request |
| SessionWire.StepProgresses | teap_tester/state_machine.py:197-275 | With retries of at least 1 a step raises, ends in DONE or FAILED, or returns a reply after sending at least one Access-Request: no run ends with "Unexpected end of conversation" |
| SessionWire.AssemblyNeverStalls | teap_tester/eap.py:96-119 | What is not a TEAP/Start is either buffered with an acknowledgement due or handed on, never neither |
| SessionWire.StepEchoes | teap_tester/state_machine.py:197-275 | The first packet of a step carries the identifier of the EAP-Request answered and, after configured ones, the State of that very reply; later ones what they owe (RFC 3748 section 4.1, RFC 2865 section 5.24) |
| SessionWire.RunEchoes | teap_tester/state_machine.py:149-275 | In every run, every packet on the wire is an EAP-Response that echoes, in order, exactly what was owed when it was sent, nothing skipped between steps |
| SessionWire.PerformEchoes | teap_tester/state_machine.py:846-904 | Every packet any action sends, fragments included, carries the EAP identifier and RADIUS State in force when it is sent |
| SessionWire.FragmentsEcho | teap_tester/state_machine.py:846-878 | Each fragment after the first carries the identifier and State its predecessor's acknowledgement left |
| SessionWire.RequestCarries | teap_tester/state_machine.py:75-111 | A request carries the EAP packet it was built for, whole, then only what configured EAP-Message attributes add, and the State held, after configured ones |
| Exchanges.ActionSends | teap_tester/state_machine.py:575-581 | TLVs go out only as the outer tunnel encrypted them; each action puts at most one packet on the wire, an EAP-Response of type 55, version 1 and no flags with exactly that data, a ClientHello with its length, or the outer identity under type 1 |
| Exchanges.RepliesMatchRequests | teap_tester/state_machine.py:880-904 | In every run the k-th Access-Request has identifier k modulo 256, and every reply processed has the identifier of the request last sent and is verified under that request's authenticator (RFC 2865 section 3) |
| Exchanges.SentUntilAnswered | teap_tester/radius.py:251-264 | A request goes out again only after a silence or a stray datagram, and last when answered, when the socket breaks, or when no retry is left |
| Exchanges.AckTaken | teap_tester/state_machine.py:869-877 | An acknowledgement of a fragment changes the State to echo if it has one that is not empty, and the EAP identifier if it has an EAP packet; a State it lacks is kept |
| Exchanges.ReplyKept | teap_tester/state_machine.py:908-933 | A reply that verifies replaces the code and the attributes kept, every value of every type reading back in order; any other leaves them |
| Exchanges.RefusalStands | teap_tester/state_machine.py:297-313 | A refused server certificate ends the run with that fault whatever becomes of the alert, and nothing but the alert is sent |
| Fragments.FlightArrives | teap_tester/state_machine.py:846-878 | Four layers: whatever the server does, the packets sent deliver the data's beginning, nothing and an acknowledgement due for each, with at most 1024 octets of EAP data beside configured ones; the loop ends with a reply exactly when the world serves the flight, and then the packets are exactly ceil(n/1014) and an idle reassembler turns them into exactly the data |
| Fragments.FragmentArrives | teap_tester/eap.py:47-119 | The reassembler holding data[..k] takes the fragment at k as the next 1014 octets, or completes the data |
| Fragments.DeliversAll | teap_tester/eap.py:96-119 | As many packets as delivering data takes end with exactly that data |
| Fragments.ServedExactlyWhen | teap_tester/state_machine.py:846-878 | The loop ends with a reply exactly when every request packs and is answered and every acknowledgement decodes |
| Fragments.RepliesExactlyWhen | teap_tester/radius.py:251-263 | send_receive returns a reply exactly when one with the request's identifier comes within the retries and before any socket error |
| Session.TeapSession.Run | teap_tester/state_machine.py:149-187 | Reports what the run function says for every sequence of answers, success exactly when the last reply processed accepts; success only when earned by the history above; every plaintext it heard came from the outer tunnel |
| Session.TeapSession.ProcessResponse | teap_tester/state_machine.py:197-253 | Leaves the fields, and returns the reply, fault or nothing, that one step of the specification gives: DONE exactly when the reply accepts an acknowledged Result, FAILED when it refuses; keeps the session's invariant, makes progress with retries of at least 1, and sends only packets that echo what they owe |
| Session.TeapSession.HandleTeap | teap_tester/state_machine.py:257-275 | Start, fragment acknowledgement, handshake and tunnel data, as specified |
| Session.TeapSession.HandleTeapStart | teap_tester/state_machine.py:277-295 | Keeps the outer TLVs past a 4-octet header, replaces the outer tunnel and sends its ClientHello |
| Session.TeapSession.TlsHandshakeStep | teap_tester/state_machine.py:297-337 | Feeds the outer tunnel; answers a refused certificate with an alert and raises all the same |
| Session.TeapSession.TunnelEstablished | teap_tester/state_machine.py:315-331 | Takes the session key seed, then answers TLVs that came with the last flight |
| Session.TeapSession.HandleTunnelData | teap_tester/state_machine.py:341-349 | Decrypts, acknowledges an empty payload, dispatches TLVs |
| Session.TeapSession.DispatchTlvs | teap_tester/state_machine.py:351-379 | NAKs unsupported mandatory TLVs, fatal beside a Result, and dispatches anything else |
| Session.TeapSession.DispatchMessage | teap_tester/state_machine.py:381-448 | The order of the eleven branches |
| Session.TeapSession.HandleIdentityType | teap_tester/state_machine.py:450-498 | Offers the identity asked for, or the other one, or fails without credentials |
| Session.TeapSession.HandleInnerEap | teap_tester/state_machine.py:502-544 | Inner success, failure and requests, with a NAK toward the method this identity has |
| Session.TeapSession.HandleInnerTls | teap_tester/inner_tls.py:42-80 | Starts, acknowledges or continues the inner handshake; a finished one records its leg and MSK |
| Session.TeapSession.HandleInnerMschapv2 | teap_tester/inner_mschapv2.py:35-78 | Answers a challenge; takes a Success only with the expected authenticator response |
| Session.TeapSession.AnswerMschapChallenge | teap_tester/inner_mschapv2.py:80-112 | Refuses a malformed challenge, remembers a good one and answers it |
| Session.TeapSession.RecordLeg | teap_tester/state_machine.py:553-562 | Appends an unbound leg for the current identity |
| Session.TeapSession.Bind | teap_tester/state_machine.py:594-648 | Field checks, key derivation, Compound MACs and response, with the exact state left by a refusal |
| Session.TeapSession.VerifyAndRespond | teap_tester/state_machine.py:623-645 | A response exactly when every Compound MAC that can be checked matches and one can be sent |
| Session.TeapSession.DeriveBindingKeys | teap_tester/state_machine.py:650-678 | Advances both chains and drops the EMSK CMK when there is no EMSK |
| Session.TeapSession.Fatal | teap_tester/state_machine.py:680-688 | FAILED, with Result(Failure) and the Error TLV sent |
| Session.TeapSession.AnswerFailure | teap_tester/state_machine.py:710-716 | FAILED, with Result(Failure) sent |
| Session.TeapSession.HandleIntermediateFailure | teap_tester/state_machine.py:694-708 | Acknowledges a failed method; a success without a binding is fatal |
| Session.TeapSession.HandleCryptoBinding | teap_tester/state_machine.py:718-742 | Answers a binding, along with the next method when one is in the message |
| Session.TeapSession.HandleIntermediateResultCrypto | teap_tester/state_machine.py:744-753 | Fatal for a failed Intermediate-Result, before the binding is looked at |
| Session.TeapSession.HandleLastBindingAndResult | teap_tester/state_machine.py:755-784 | Binds before either result is acted on, then acknowledges all three or fails |
| Session.TeapSession.HandleResultPac | teap_tester/state_machine.py:788-812 | Acknowledges a PAC without ending the session |
| Session.TeapSession.HandleFinalResult | teap_tester/state_machine.py:816-842 | Binds before the result is acted on, then acknowledges or fails |
| Session.TeapSession.HandleLoneResult | teap_tester/state_machine.py:423-441 | A lone success counts only after a binding |
| Session.TeapSession.SendFragment | teap_tester/state_machine.py:852-877 | One iteration: the fragment sent, and identifier and State taken from its acknowledgement |
| Session.TeapSession.SendFragmented | teap_tester/state_machine.py:846-878 | The loop over fragments, with every way it ends |
| Session.TeapSession.SendReceive | teap_tester/radius.py:251-264 | The retry loop: as many transmissions as it takes, and the reply, socket error or timeout that ends it |
| Session.TeapSession.RadiusExchange | teap_tester/state_machine.py:880-904 | A fresh authenticator, the next identifier, and what send_receive brought back, captured when it is a reply |
| Session.TeapSession.CaptureReplyAttrs | teap_tester/state_machine.py:908-933 | The attributes and code of the latest reply that verifies; any other leaves them |
| Session.TeapSession.AcceptSuccess | teap_tester/state_machine.py:971-982 | DONE only when the Result was acknowledged |
| Radius.EncodeRequest | teap_tester/radius.py:14-39 | Builds the packet specified, or raises exactly when a value or the packet does not fit |
| Radius.RequestVerifies | teap_tester/radius.py:14-39 | Every request from attributes without a type 80 verifies under its secret and authenticator: the walk finds the field at length minus 16 whatever the other values hold, and its attributes read back (RFC 3579 section 3.2) |
| Radius.RequestReads | teap_tester/radius.py:14-24 | For every type but 80, the values decoded from a request are those given; of EAP-Message, pieces that concatenate to them |
| Authenticity.RequestPacksExactlyWhen | teap_tester/radius.py:14-39 | A request packs exactly when each type fits an octet, each value but an EAP-Message's 253, and the whole, with 18 octets of signature unless the list names one, 65535; and then it is exactly that long |
| Radius.DecodeResponse | teap_tester/radius.py:42-72 | Accepts exactly replies of consistent length whose two authenticators verify, with EAP-Message joined and the last State |
| Authenticity.ReplyAcceptedExactlyWhen | teap_tester/radius.py:42-114 | On every datagram, decode_response accepts exactly what is framed, carries MD5(code, identifier, length, request authenticator, attributes, secret), and whose first Message-Authenticator, if there is one, is whole and the HMAC-MD5 of the packet with the request's authenticator and zeros for itself (RFC 2865 section 3, RFC 3579 section 3.2) |
| Radius.VerifyMessageAuthenticator | teap_tester/radius.py:86-100 | The HMAC over the packet with both fields replaced, when there is one to check |
| Radius.FindAttrOffset | teap_tester/radius.py:103-114 | The offset loop equals the recursive search |
| Radius.DecodeAttrs | teap_tester/radius.py:121-132 | The decode loop equals the recursive walk, stopping at the first malformed attribute |
| Radius.WalksAgree | teap_tester/radius.py:103-132 | On every octet string the two walks agree: a value is found exactly when its type is decoded, and it is the first |
| Radius.DecodeInvertsEncode | teap_tester/radius.py:121-132 | Decoding inverts encoding for every list of attributes that fit |
| Radius.SplitEapJoins | teap_tester/radius.py:117-118 | The pieces of an EAP-Message concatenate to it |
| Radius.AccountingVerifies | teap_tester/radius.py:135-154 | A server recomputing the MD5 over the packet with the authenticator zeroed finds the one it carries, and reads the attributes sent (RFC 2866 section 3) |
| Coa.DecodeRequest | teap_tester/coa.py:28-61 | Accepts exactly what the specification accepts, for every octet string |
| Authenticity.RequestAcceptedExactlyWhen | teap_tester/coa.py:28-61 | On every datagram, decode_request accepts exactly a framed packet of code 40 or 43 with the MD5 over sixteen zeros and, where its first Message-Authenticator stands in the datagram, the HMAC-MD5 over zeros for both fields (RFC 5176 sections 2.3 and 3.4) |
| Coa.TrailingOctetsMatterExactlyWhen | teap_tester/coa.py:41-56 | Octets past the length field change the verdict on a datagram exactly when its code is a request, the Request Authenticator of the packet alone holds, the Message-Authenticator is cut short by the length, and the octets after it make it match; cut short, the packet alone is always refused |
| Coa.CutShortAccepted | teap_tester/coa.py:48-56 | For every secret there is such a datagram |
| Coa.EncodeResponse | teap_tester/coa.py:64-87 | Builds the reply specified, signed when asked |
| Coa.AnswersAccepted | teap_tester/coa.py:28-101 | For every accepted request the ACK and the NAK are accepted by decode_response under the same secret and the request's authenticator, with the matching code, the same identifier, the attributes sent, and a Message-Authenticator exactly when the request had one (RFC 5176 sections 2.3 and 3.4) |
| Coa.RequesterAccepted | teap_tester/coa.py:28-61 | decode_request accepts what a requester following RFC 5176 sends, signed or not, and reads it back |
| Eap.EapRoundTrip | teap_tester/eap.py:18-44 | decode_eap inverts encode_eap on everything it encodes |
| Eap.DecodeReads | teap_tester/eap.py:29-44 | On any octets, decode_eap takes code and identifier, no type from a Success, a Failure or four octets, and else the type and the data within the length field |
| Eap.DecodeIgnoresTail | teap_tester/eap.py:29-44 | decode_eap of an encoded packet with anything after it is decode_eap of the packet |
| Eap.TeapRoundTrip | teap_tester/eap.py:51-54 | A TEAP response decodes to its flags and data |
| Eap.TeapWithLengthRoundTrip | teap_tester/eap.py:57-85 | A TEAP response with a length decodes to flags, total and data |
| Eap.FragmentAssembler.Feed | teap_tester/eap.py:96-115 | The buffer, flag and result of each fragment |
| Tlv.DecodeTlvs | teap_tester/tlv.py:18-31 | The loop equals the recursive walk |
| Tlv.DecodeInvertsEncode | teap_tester/tlv.py:13-31 | Decoding the concatenated encodings of any list returns it, and still begins with it when arbitrary octets follow |
| Tlv.WalkConsumes | teap_tester/tlv.py:18-31 | On any input the TLVs account for exactly the octets read, never more than there are, and less than a whole TLV is left |
| Md4.Digest | teap_tester/mschapv2.py:32-67 | For every message the rotating-tuple loops give the digest of RFC 1320's 48 in-place operations |
| Md4.Round | teap_tester/mschapv2.py:52-62 | Sixteen rotations of the tuple equal sixteen in-place operations of the round |
| Md4.TablesAgree | teap_tester/mschapv2.py:52-62 | The index and shift lists name the operands of the RFC's operation tables |
| Md4.Pad | teap_tester/mschapv2.py:37-42 | The padding loop gives the padded message of RFC 1320 sections 3.1 and 3.2, a multiple of 64 octets |
| Md4.PaddingInjective | teap_tester/mschapv2.py:37-42 | Below 2^61 octets different messages pad differently |
| Md4Bits.OperationIs | teap_tester/mschapv2.py:44-63 | Bit by bit, an operation adds to a the choice, majority or parity of b, c and d, a word and the round's addend modulo 2^32, and moves each bit i of the sum to i + s modulo 32 (RFC 1320 section 3.4) |
| Md4Bits.AddendsAreRoots | teap_tester/mschapv2.py:56-63 | The addends of rounds 2 and 3 are the integer parts of 2^30 times the square roots of 2 and 3 |
| Md4Bits.RegistersStart | teap_tester/mschapv2.py:35-35 | The registers start as the octets 01 23 45 67 89 ab cd ef fe dc ba 98 76 54 32 10 |
| Md4Bits.PaddedReads | teap_tester/mschapv2.py:37-42 | The padding is 80, fewer than 64 zeros to 8 below a multiple of 64, and the length in bits modulo 2^64, low octets first |
| Md4Bits.DigestIs | teap_tester/mschapv2.py:48-67 | Each block adds the registers of three rounds of sixteen operations to those before it, and the digest reads back as the four registers in order |
| DesKey.KeyFrom7 | teap_tester/mschapv2.py:70-76 | The loop of shifts and masks puts each group of 7 bits in the high bits of its octet |
| DesKey.SpreadKeepsTheKey | teap_tester/mschapv2.py:70-76 | The 56 bits DES takes write the same number as the 7 octets given, parity bits are clear, and different inputs give different keys |
| Authorization.Capture | teap_tester/state_machine.py:922-932 | The loop builds the single-or-list map specified |
| Authorization.ValuesLoseNothing | teap_tester/authorization.py:39-59 | For any attribute list and number, the values read back and decoded from hex are all values of that type in order, from the int-keyed and the string-keyed map alike, and first is the first of them |
| Digits.HexRoundTrip | teap_tester/state_machine.py:922-932 | Decoding the hex that the session stores of a value returns the value |
| Authorization.ParseVsa | teap_tester/authorization.py:87-99 | The loop equals the walk of sub-attributes, with no vendor for a short value |
| Authorization.VsaRoundTrip | teap_tester/authorization.py:87-99 | Any vendor and any list of sub-attributes that fit read back |
| Pem.SplitPemChain | teap_gui/certs.py:12-22 | The shrinking loop equals the recursive split, raising on a block without an end |
| Pem.SplitYieldsBlocks | teap_gui/certs.py:12-22 | Every piece starts with a begin marker and ends with its only end marker |
| Pem.SplitJoinOfSubsequence | teap_gui/certs.py:12-22 | Splitting the newline-join of any subsequence of a bundle's blocks returns that subsequence |
| Pem.TrimChain | teap_gui/generator.py:62-80 | The loop keeps what the mode says, raising as soon as a certificate cannot be described |
| Pem.TrimIdempotent | teap_gui/generator.py:62-80 | Trimming is idempotent in each mode and keeps the leaf first and a subsequence of the bundle |
| Pem.ModesNest | teap_gui/generator.py:62-80 | leaf, no_root and full are successive subsequences |
| Pem.NoRootKeepsExactly | teap_gui/generator.py:74-79 | no_root keeps the leaf, and of the later blocks exactly those not self-signed, as often as they occur and in order; it raises exactly when a later block cannot be described |
| Pem.OtherModesKeep | teap_gui/generator.py:69-80 | leaf returns the first block and full all of them, and they raise only where the bundle does not split; a bundle without blocks is returned as it is |
| Pem.SplitsWhenClosed | teap_gui/certs.py:12-22 | A bundle splits when every begin marker has an end marker after it; if it splits, a begin marker without one shares its dashes with an end marker before it |
| Template.SplitArguments | teap_gui/template.py:27-41 | The loop splits at the commas outside parentheses |
| Template.EvalLoop | teap_gui/template.py:72-99 | The rewriting loop with its recursion equals the recursive rewriting, in text, draws and errors |
| Template.Eval | teap_gui/template.py:72-99 | _eval terminates on every text and returns or raises what the specification says |
| TemplateFunctions.UcCapitalizes | teap_gui/template.py:55-56 | uc turns each small letter into its capital and leaves every other character |
| TemplateFunctions.LcUncapitalizes | teap_gui/template.py:57-58 | lc turns each capital letter into its small one and leaves every other character |
| TemplateFunctions.HexReads | teap_gui/template.py:59-63 | hex of an integer is hexadecimal digits without leading zeros, with its sign, that read back as it; of any other text it is hex that reads back as its UTF-8 |
| TemplateFunctions.Utf8Reads | teap_gui/template.py:59-63 | The UTF-8 of a character is well formed, shortest, and has its code point (RFC 3629 section 3) |
| TemplateFunctions.PadReads | teap_gui/template.py:64-67 | pad gives the text, last, after zeros that bring it to the width; it raises exactly when the width is no integer |
| TemplateFunctions.RandReads | teap_gui/template.py:45-52 | rand gives decimal digits that read back as a number of the range, with one draw more; it raises exactly on an empty range or a text that is none |
| TemplateFunctions.RandReaches | teap_gui/template.py:45-52 | Every number of the range can be drawn |
| TemplateFunctions.ParseIntExactlyWhen | teap_gui/template.py:59-67 | int() reads exactly white space, a sign or none, digits with single underscores between them, and white space, as the number the digits write |
| TemplateFunctions.ParseRangeExactlyWhen | teap_gui/template.py:21-21 | The regular expression of rand matches exactly two digit strings about two dots, with white space around each, and gives the numbers they write |
| Template.EvalIsBounded | teap_gui/template.py:72-99 | Fewer than 50 opening parentheses are never too deeply nested; a result holds no call and no more parentheses than the text |
| Template.PickFindsACall | teap_gui/template.py:75-82 | An innermost call is found whenever there is a call, so the fallback search never finds one |
| Template.FindMatch | teap_gui/template.py:74-84 | The scan returns the first call with no call up to its next closing parenthesis |
| Template.FindClose | teap_gui/template.py:85-93 | The scan returns the matching parenthesis, or none |
| TemplateMeaning.EvaluationPreservesMeaning | teap_gui/template.py:27-99 | For every expression tree, evaluating its printed text gives a value exactly when it has fewer than 50 calls and denotes one, and then that value with as many draws; below 50 calls it raises what the denotation raises |
| TemplateMeaning.RewritingMeans | teap_gui/template.py:72-99 | Rewriting one leaf call at a time keeps the meaning, by induction on the calls left |
| TemplateMeaning.DenotePlug | teap_gui/template.py:72-99 | Replacing the leaf call by its value changes no denotation, errors and draw order included |
| TemplateMeaning.SplitPrinted | teap_gui/template.py:27-41 | Splitting printed arguments without calls gives the arguments |
| Rewriting.NeverTooDeep | teap_gui/template.py:72-99 | A measure that every rewrite and every recursive body lowers bounds the rounds |

## Left out

- Sockets, asyncio and timing: each transmission is followed by a datagram, a socket error, or
  nothing within its timeout. The overall timeout of the caller is a run that stops between two
  steps.
- Termination of a run: a server may challenge for ever, so runs are over finite sequences of answers.
- Logging, durations, messages of failures, and the hint about a server that never answered.
- TLS itself: a tunnel is whether it is established and whether its cipher suite uses SHA-384;
  handshakes, encryption and exports are answers of the world.
- Inside of HMAC, MD5, SHA-1, SHA-256, SHA-384 and DES; MD4 and the DES key spreading are modelled.
- MS-CHAPv2's NT-Response, authenticator response and session key are unknown functions of their
  inputs with fixed lengths; nothing is claimed of RFC 3079's key halves. Decoding the server's
  message as Latin-1 is octet for octet, so the search for the expected response is over octets.
- Configuration strings are octets already encoded; build_request_attrs is a list of built-in
  attributes before the EAP-Message, any list after it, and State last, so NAS address lookup is
  not modelled.
- The private key and certificate an inner handshake picks.
- The PAC TLV's sub-fields: they are only logged.
- Radius.RequestVerifies: requires no configured type 80, as encode_request then signs nothing.
- Coa: by_type, session_key, mac_variants and wants_reauthentication read fields without a law to prove.
- parse_attribute_spec and the attribute name table.
- Authorization: the typed decode of a reply (tags, dACL, VLAN, SGT) and parse_avpair.
- Template: render's substitution of variables, which is plain text replacement before evaluation.
  Upper and lower case and digits are those of ASCII and white space that of Latin-1; int()'s limit
  of 4300 digits is not modelled; random numbers are a fixed function of the range and the count of
  draws so far.
- Pem: parsing a certificate; whether a block describes a self-signed certificate, or cannot be
  parsed, is an arbitrary function of its text.
- The web application: routes, database rows, accounting and expiry jobs.
