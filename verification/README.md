# Verification of the ESP32 port of the Aliyun IoT SDK: protocol and bookkeeping layer

A Dafny model of the C code that turns requests into CoAP messages and back, keeps track of what is
outstanding, and manages keys, sessions and devices, with proofs of what that code does in every run.
`dafny verify dfyconfig.toml` checks everything.

| part | files | what it is about |
|---|---|---|
| CoAP codec | `CoapWire`, `CoapMessage`, `CoapSerialize`, `CoapDeserialize`, `CoapCodec`, `WireFormat`, `CoapRequest` | the wire format of RFC 7252 sections 3 to 3.2, the message builder, printer, parser, all three in a row, printer and parser against the format, the path splitter and the options of a request |
| reliable sending | `SendListSpec`, `SendList`, `SendListRuns`, `SendListSchedule` | the list of unanswered requests: state machine, code, properties of whole runs, retransmission schedule and acknowledgements |
| replies | `MessageCache`, `ReplyRuns`, `ReplyOutcomes`, `ReplyCallers` | the cache of outstanding requests, the event queue, reply handling, all interleavings of threads on them, what an outcome carries and whether there is one, and who may insert, reply and tick |
| cryptographic framing | `AesCbc`, `AesFraming`, `CipherFrames`, `Base64`, `Base64Codec`, `Base64Table` | CBC (NIST SP 800-38A section 6.2) with padding (RFC 5652 section 6.3) in two variants, base64 (RFC 4648 section 4) |
| local control | `KeyStore`, `KeyStoreThreads`, `SessionSpec`, `SessionServer`, `SessionRuns`, `SessionAnswers` | server keys and their priorities, authentication, sessions, expiry, protected requests |
| device model | `DeviceRegistry`, `SubscribeLoop`, `TopicNames`, `ArrayKeys` | the device registry, the subscribe loop, topic names and array keys |

`Bytes` holds the machine integers and what is common to buffers and list walks, `Bits` the bitwise or. A
component that the C code updates in place is a class whose methods follow the C functions loop by loop; each
method equates its new state with a function of the old one, and the properties are lemmas about those functions
and about runs of them. Formats, tables, codes and constants are stated a second time in plain numbers and in terms of
what the caller passes (`WireFormat`, `CipherFrames`, `Base64Table`, `SessionAnswers` and the lemmas named
`...Exactly`), so that printer and parser, or the two ends of a model, cannot agree on a wrong one.

Six places where the code does less than one would expect are stated as results, each with an input that
shows it and the exact condition under which the code does meet the expectation:

- The builder keeps the number of the last option in 8 bits, so a message whose option numbers exceed 255
  before the last one arrives with other numbers (`CoapWire.NumbersSurvive`,
  `CoapCodec.WideNumbersArriveChanged`). Array indices of ten digits lose one (`ArrayKeys.AtoiItoaExactly`,
  `ArrayKeys.TenDigitsLoseOne`).
- The limit on the number of unanswered requests compares the addresses of two bytes
  (`SendListRuns.ListIsNotCappedExactly`, `SendListRuns.ListExceedsMaximum`). Message ids repeat after 65534
  requests, and then an acknowledgement can mark another request (`SendListRuns.MessageIdsRepeat`,
  `SendListSchedule.AckMarksExactly`, `SendListSchedule.AckMarksAnother`). The retry limit 4 of RFC 7252
  section 4.8 is never reached, because the span test removes a request at its third retransmission
  (`SendListSchedule.ConSchedule`).
- A reply searches the cache, reads the device through the pointer it was given, sends its event and removes
  the entry, without holding a lock over these steps. Requests have at most one outcome, with the right device,
  in every run exactly if nobody inserts, nobody replies, or one thread does all replies and ticks; a thread
  that dispatches beside the one that yields is one too many (`ReplyCallers.CallersDecide`,
  `ReplyCallers.TwoThreadsRace`). No request is left without an outcome exactly if nobody inserts, nobody
  replies, or one thread does both: a reply that comes before its request is in the cache can take it away again
  (`ReplyCallers.CallersServe`, `ReplyCallers.EarlyReplyDropsRequest`). All of it together takes a single thread
  for everything (`ReplyCallers.SafeCallersExactly`). The cache limit is tested outside the lock, and the
  overshoot this allows is exact (`ReplyRuns.ConcurrentBounds`, `ReplyRuns.CacheOvershoots`).
- Device checksums are bytes of a digest but are compared as C strings, so a client that has authenticated for
  one device reaches the callbacks of another whose checksum agrees up to a zero byte. A registered resource is
  guarded exactly if its checksum has no zero among its first five bytes (`SessionRuns.GuardedExactly`,
  `SessionRuns.OtherDeviceReachesCallback`).
- A refused key can still empty the key store, when memory runs out after lower priorities were dropped
  (`KeyStore.RefusedAddUnchangedExactly`, `KeyStore.RefusedAddEmpties`). In all runs of n threads that add, the
  store holds one priority exactly if n is at most 1 (`KeyStoreThreads.OnePriorityExactly`,
  `KeyStoreThreads.TwoPrioritiesMeet`), and up to n - 1 keys more than its ten (`KeyStoreThreads.MaximumExactly`,
  `KeyStoreThreads.StoreOvershoots`).
- An authentication that fails to parse is answered with code 200 (`SessionRuns.EmptyOkExactly`,
  `SessionRuns.UnparsedIsAnsweredOk`), and an observe value is read into a word that was not cleared
  (`SessionSpec.ObserveNoticedExactly`, `CoapMessage.ReadIsRightExactly`).

Assumed about the outside: block encryption is undone by block decryption and the library call on one block
moves the vector to the cipher block; digests are functions; allocation results, network results, random
keys, clock readings and the behaviour of the subscribe call are parameters, free to be anything.

## Model

| member | source | states |
|---|---|---|
| CoapWire.WireRoundTrip | components/esp-aliyun/iotkit-embedded/coap_cloud/CoAPDeserialize_common.c:108-139 | For every header, token of at most 8 bytes, list of at most 12 options and payload: parsing the printed bytes succeeds and gives back header, token and option values; the option numbers come back exactly if every number but the last is below 256; the payload length is right exactly if there is a payload or the byte behind the message is not 0xFF. |
| CoapWire.NumbersSurvive | components/esp-aliyun/iotkit-embedded/coap_cloud/CoAPMessage_common.c:50-71 | Difference coding in the builder (predecessor kept in 8 bits) followed by summing in the parser (16 bits) is the identity exactly if every number but the last fits 8 bits; both wrap modulo 65536, so numbers need not ascend. |
| CoapWire.OptionsSurvive | components/esp-aliyun/iotkit-embedded/coap_cloud/CoAPMessage_common.c:57-67 | The same from a fresh message, and the option values survive in any case. |
| CoapWire.DeltasAppend | components/esp-aliyun/iotkit-embedded/coap_cloud/CoAPMessage_common.c:57-67 | Adding an option appends one difference to the stored list, taken from the number of the option added before it. |
| CoapWire.DecodeOptionsAt | components/esp-aliyun/iotkit-embedded/coap_cloud/CoAPDeserialize_common.c:73-91 | The option loop over printed options consumes exactly their bytes and stops at the payload marker or at the end. |
| CoapWire.DecodeEncodedOptions | components/esp-aliyun/iotkit-embedded/coap_cloud/CoAPDeserialize_common.c:73-91 | The same for a whole printed message area that ends or goes on with the marker. |
| CoapWire.EncodeOption | components/esp-aliyun/iotkit-embedded/coap_cloud/CoAPSerialize_common.c:41-92 | A printed option has at least one byte and never starts with 0xFF, so it cannot be taken for the payload marker. |
| CoapWire.DecodeEncoded | components/esp-aliyun/iotkit-embedded/coap_cloud/CoAPDeserialize_common.c:108-139 | What the parser reports of a printed packet in full: the effect of the byte behind a packet without payload is included, and a packet with payload may fill the memory. |
| CoapWire.DecodeStages | components/esp-aliyun/iotkit-embedded/coap_cloud/CoAPDeserialize_common.c:108-139 | A parse that succeeds went through header, token and option loop, in that order. |
| WireFormat.OptionExactly | components/esp-aliyun/iotkit-embedded/coap_cloud/CoAPSerialize_common.c:41-92 | The bytes of an option of RFC 7252 section 3.1 (length nibble and delta nibble with their bytes behind the values 13 and 14, then the value) are exactly the bytes the printer writes. |
| WireFormat.OptionsExactly | components/esp-aliyun/iotkit-embedded/coap_cloud/CoAPSerialize_common.c:94-112 | The same for a list of options, one after the other. |
| WireFormat.HeaderExactly | components/esp-aliyun/iotkit-embedded/coap_cloud/CoAPSerialize_common.c:13-27 | The four header bytes of RFC 7252 section 3 are exactly the ones printed: version times 64, type times 16 and token length; code; message id, high byte first. |
| WireFormat.PacketExactly | components/esp-aliyun/iotkit-embedded/coap_cloud/CoAPSerialize_common.c:195-222 | A byte string is a message of RFC 7252 section 3 (header, token, options, and the byte 0xFF in front of a payload that is not empty) exactly if it is what the printer writes. |
| WireFormat.FormatIsRead | components/esp-aliyun/iotkit-embedded/coap_cloud/CoAPDeserialize_common.c:108-139 | A message of that format is parsed into its own header, token, options, and the payload behind its 0xFF. |
| WireFormat.PayloadBehindMarker | components/esp-aliyun/iotkit-embedded/coap_cloud/CoAPDeserialize_common.c:93-106 | In any memory that parses, the payload is what follows the byte 0xFF where the option loop stopped, and there is none if another byte stands there. |
| WireFormat.ParseFailsExactly | components/esp-aliyun/iotkit-embedded/coap_cloud/CoAPDeserialize_common.c:108-139 | A parse of four bytes or more leaves what the model covers exactly if the token has more than 8 bytes or leaves the memory, or the option loop does. |
| WireFormat.FifteenIsTaken | components/esp-aliyun/iotkit-embedded/coap_cloud/CoAPDeserialize_common.c:30-71 | The reserved delta nibble 15 of RFC 7252 section 3.1 is taken as the number 15, not refused. |
| CoapMessage.Message.Init | components/esp-aliyun/iotkit-embedded/coap_cloud/CoAPMessage_common.c:274-300 | A fresh message has no options, version 1, type ACK, and difference base 0. |
| CoapMessage.Message.TokenSet | components/esp-aliyun/iotkit-embedded/coap_cloud/CoAPMessage_common.c:229-242 | Tokens of at most 8 bytes are taken; longer ones are refused and change nothing. |
| CoapMessage.Message.PayloadSet | components/esp-aliyun/iotkit-embedded/coap_cloud/CoAPMessage_common.c:262-272 | The payload becomes the first bytes of the data. |
| CoapMessage.Message.StrOptionAdd | components/esp-aliyun/iotkit-embedded/coap_cloud/CoAPMessage_common.c:50-71 | The logical option list grows by the option, or the call is refused: when twelve are stored or memory is short. The stored differences stay those of the logical list. |
| CoapMessage.Message.UintOptionAdd | components/esp-aliyun/iotkit-embedded/coap_cloud/CoAPMessage_common.c:94-132 | The same for an integer in its shortest of the lengths 0, 1, 2 and 4. |
| CoapMessage.Message.StrOptionGet | components/esp-aliyun/iotkit-embedded/coap_cloud/CoAPMessage_common.c:73-91 | The value of the first option of the number, if it fits the buffer. |
| CoapMessage.Message.UintOptionGet | components/esp-aliyun/iotkit-embedded/coap_cloud/CoAPMessage_common.c:134-172 | The first option of the number is looked up and, for a value of one to four bytes, its integer is ORed into the output word; for other lengths the word becomes 0. |
| CoapMessage.ReadIsRightExactly | components/esp-aliyun/iotkit-embedded/coap_cloud/CoAPMessage_common.c:141-168 | The word read is the integer of the option, whatever the word held before, exactly if the value is empty, longer than four bytes, or all ones; from a cleared word it always is. |
| CoapMessage.UintRoundTrip | components/esp-aliyun/iotkit-embedded/coap_cloud/CoAPMessage_common.c:94-172 | Reading the stored bytes of any 32-bit number gives the number. |
| WireFormat.UintIsBigEndian | components/esp-aliyun/iotkit-embedded/coap_cloud/CoAPMessage_common.c:94-172 | An integer is stored as its big-endian bytes, 0, 1, 2 or 4 of them, and up to four bytes are read as a big-endian number; a longer value gives 0. |
| CoapMessage.FirstIsEarliest | components/esp-aliyun/iotkit-embedded/coap_cloud/CoAPMessage_common.c:139-168 | The lookup meets the earliest option of a number: no option before it has that number. |
| CoapMessage.FirstIsNone | components/esp-aliyun/iotkit-embedded/coap_cloud/CoAPMessage_common.c:139-171 | The lookup fails exactly if no option has the number. |
| CoapSerialize.SerializeOption | components/esp-aliyun/iotkit-embedded/coap_cloud/CoAPSerialize_common.c:41-92 | Writes the specified bytes of one option at the position, and returns their number. |
| CoapSerialize.SerializeOptions | components/esp-aliyun/iotkit-embedded/coap_cloud/CoAPSerialize_common.c:94-112 | Writes the specified bytes of all options, nothing else, and returns their number. |
| CoapSerialize.SerializePayload | components/esp-aliyun/iotkit-embedded/coap_cloud/CoAPSerialize_common.c:162-177 | Writes the marker byte and the payload, or nothing; the marker is 0xFF by WireFormat.PacketExactly. |
| CoapSerialize.SerializeMessage | components/esp-aliyun/iotkit-embedded/coap_cloud/CoAPSerialize_common.c:195-222 | A message that fits is written byte for byte as specified, which is the format of WireFormat.PacketExactly, and the result is its length; the rest of the buffer is unchanged. |
| CoapSerialize.MessageLength | components/esp-aliyun/iotkit-embedded/coap_cloud/CoAPSerialize_common.c:180-193 | The announced length is the number of bytes the printer writes exactly if that number is below 65536. |
| CoapDeserialize.ReadNumber | components/esp-aliyun/iotkit-embedded/coap_cloud/CoAPDeserialize_common.c:41-54 | The running option number after one delta nibble with its extension bytes, modulo 65536. |
| CoapDeserialize.DeserializeOption | components/esp-aliyun/iotkit-embedded/coap_cloud/CoAPDeserialize_common.c:30-71 | Reads the option that the format puts at the position and returns its size. |
| CoapDeserialize.DeserializeOptions | components/esp-aliyun/iotkit-embedded/coap_cloud/CoAPDeserialize_common.c:73-91 | The loop fills the slots with the options the format puts there and returns the size of the option area. |
| CoapDeserialize.DeserializePayload | components/esp-aliyun/iotkit-embedded/coap_cloud/CoAPDeserialize_common.c:93-106 | The payload is what follows the byte 0xFF up to the end, its length taken in 16 bits; the byte looked at may lie behind the message. |
| CoapDeserialize.DeserializeMessage | components/esp-aliyun/iotkit-embedded/coap_cloud/CoAPDeserialize_common.c:108-139 | Messages under 4 bytes are refused; for all others that do not make the code leave its memory, those whose token or last option runs past the datagram included, the filled struct holds exactly the parse, which reads the format of WireFormat.FormatIsRead. |
| CoapCodec.ThereAndBack | components/esp-aliyun/iotkit-embedded/coap_cloud/CoAPDeserialize_common.c:108-139 | A built message is printed, sent into a zero-filled receive buffer and parsed: header, token, option values, payload and its length arrive as they were; the option numbers arrive exactly if all but the last are below 256. A message with payload may fill the receive buffer. |
| CoapCodec.ReadBack | components/esp-aliyun/iotkit-embedded/coap_cloud/CoAPDeserialize_common.c:108-139 | The parse of such a buffer, as a value. |
| CoapCodec.WideNumbersArriveChanged | components/esp-aliyun/iotkit-embedded/coap_cloud/CoAPMessage_common.c:57-67 | Options 300 and 301, added in this order, arrive as 300 and 557. |
| CoapRequest.SplitPath | components/esp-aliyun/iotkit-embedded/coap_cloud/iotx_coap_api.c:548-586 | The options gained are the non-empty segments of the URI between slashes, in order, as far as there are slots; a last segment that ends the URI is cut to 127 bytes; URIs over the maximum are refused untouched. |
| CoapRequest.SetAddr | components/esp-aliyun/iotkit-embedded/dev_model/alcs_coap.c:384-404 | The local copy of the splitter with the query option behind the path; paths over 255 bytes are refused untouched. |
| CoapRequest.SegmentsOfJoin | components/esp-aliyun/iotkit-embedded/dev_model/alcs_coap.c:348-382 | Splitting "/a/b/c" gives a, b, c back, for all non-empty slash-free segments. |
| CoapRequest.SegmentsAreProper | components/esp-aliyun/iotkit-embedded/dev_model/alcs_coap.c:348-382 | No segment is empty or holds the byte 0x2F. |
| CoapRequest.AddRequestOptions | components/esp-aliyun/iotkit-embedded/coap_cloud/iotx_coap_api.c:649-674 | A request gets path, content format, accept, auth token and, on the PSK endpoint, the sequence option, in this order, as far as there are slots. |
| CoapRequest.RequestCarries | components/esp-aliyun/iotkit-embedded/coap_cloud/iotx_coap_api.c:649-674 | What the request options carry: one option 11 for each path segment, 12 with the content format and 17 with the accepted format as big-endian numbers, 61 with the token, and 2089 with the sequence value if there is one, in this order and nothing else. |
| CoapRequest.PathOfKept | components/esp-aliyun/iotkit-embedded/coap_cloud/iotx_coap_api.c:548-586 | The path options that fit the slots are the first twelve segments. |
| CoapRequest.SentSegmentsAre | components/esp-aliyun/iotkit-embedded/coap_cloud/iotx_coap_api.c:548-586 | Each segment is sent as it is, except that the last one of a URI that does not end in a slash is cut to its first 127 bytes. |
| CoapRequest.RequestRoundTrip | components/esp-aliyun/iotkit-embedded/coap_cloud/iotx_coap_api.c:636-692 | A request parsed from its bytes has the options it was built with, sequence option 2089 included, exactly if segments and other options together are at most twelve; the receiver reads back the segments of the URI exactly if there are at most twelve and the last one was not cut. |
| CoapRequest.UintOptionOverWire | components/esp-aliyun/iotkit-embedded/coap_cloud/CoAPMessage_common.c:94-172 | For every 32-bit value under a number of its own: add, print, parse and look up give the value. |
| SendListSpec.TokenRoundTrip | components/esp-aliyun/iotkit-embedded/coap_cloud/iotx_coap_api.c:232-241 | Reading a token back gives the counter value it was made from. |
| SendListRuns.IdentifiersInRun | components/esp-aliyun/iotkit-embedded/coap_cloud/iotx_coap_api.c:232-241 | Request k of every run of at most 2^32 requests has the token 0x01020304 + k modulo 2^32, least significant byte first, and the message id k + 1, or 1 from 65534 on. |
| SendList.Context.Create | components/esp-aliyun/iotkit-embedded/coap_cloud/CoAPExport.c:124-163 | A new context is the start of the state machine, with the configured maximum and the layout of the list struct. |
| SendList.Context.MessageIdGen | components/esp-aliyun/iotkit-embedded/coap_cloud/CoAPMessage.c:42-47 | Issues 1 to 65534 in turn and 1 for ever after. |
| SendList.Context.GetCoapToken | components/esp-aliyun/iotkit-embedded/coap_cloud/iotx_coap_api.c:232-241 | Issues the counter, least significant byte first, and moves it on modulo 2^32. |
| SendList.Context.SendRequest | components/esp-aliyun/iotkit-embedded/coap_cloud/CoAPMessage.c:98-134 | A request takes its identifiers in any case and enters the list exactly if it fits, is written and there is memory. |
| SendList.Context.ListAdd | components/esp-aliyun/iotkit-embedded/coap_cloud/CoAPMessage.c:58-96 | The node appended, with its timers for confirmable and other messages, unless memory is short or the test, which compares the addresses of the two counters, refuses. |
| SendList.Context.AckMessageHandle | components/esp-aliyun/iotkit-embedded/coap_cloud/CoAPMessage.c:137-149 | The first node of the message id is marked, nothing else changes. |
| SendList.Context.RespMessageHandle | components/esp-aliyun/iotkit-embedded/coap_cloud/CoAPMessage.c:159-200 | A confirmable response is acknowledged; the first node of the token has its handler called and leaves. |
| SendList.Context.MessageHandle | components/esp-aliyun/iotkit-embedded/coap_cloud/CoAPMessage.c:202-241 | An arrived message is one receive step of the state machine. |
| SendList.Context.MessageRecv | components/esp-aliyun/iotkit-embedded/coap_cloud/CoAPMessage.c:243-265 | The messages handled are those that arrived, or the first of them if a count is given. |
| SendList.Context.WalkNode | components/esp-aliyun/iotkit-embedded/coap_cloud/CoAPMessage.c:275-307 | One node in one timer cycle: what becomes of its timers, whether it is retransmitted, whether it leaves. |
| SendList.Context.Walk | components/esp-aliyun/iotkit-embedded/coap_cloud/CoAPMessage.c:273-309 | The walk over the shrinking list is one timer step for every node, in order. |
| SendList.Context.Cycle | components/esp-aliyun/iotkit-embedded/coap_cloud/CoAPMessage.c:267-311 | A cycle is the receive steps of what arrived, then one timer step. |
| SendListRuns.RunKeeps | components/esp-aliyun/iotkit-embedded/coap_cloud/CoAPMessage.c:58-311 | In every run of at most 2^32 requests the context stays sound: counter, tokens, message ids, node shapes (the timeout value is a power of two tied to the retransmission count), every listed node carries the identifiers, handler and user data of its request, and no answered request is listed or answered again. |
| SendListRuns.ResponseCorrelation | components/esp-aliyun/iotkit-embedded/coap_cloud/CoAPMessage.c:159-200 | From the start, in every such run: outstanding and issued tokens are distinct, every handler call belongs to the request whose token came back, with its user data, no token has two calls, and the 8-bit counter is the list length modulo 256. |
| SendListRuns.ResponseRunsItsRequest | components/esp-aliyun/iotkit-embedded/coap_cloud/CoAPMessage.c:159-200 | A message of one of the code classes 2 to 5 of RFC 7252 section 12.1 whose token is listed runs exactly the handler of that request, with its user data, and takes exactly that node away; with another token it changes nothing but the ACK. |
| SendListRuns.OthersChangeNothing | components/esp-aliyun/iotkit-embedded/coap_cloud/CoAPMessage.c:12-17 | A message that is neither of the classes 2 to 5 nor an empty ACK (type 2, code 0) changes nothing. |
| SendListRuns.SendListsExactly | components/esp-aliyun/iotkit-embedded/coap_cloud/CoAPMessage.c:58-96 | Every call counts as a request; the list grows, at its end and by one node, exactly if the message fits, is written, there is memory and `count` lies before `maxcount`; the node has the identifiers, handler and user data of the call and starts with timeout 2 and no retransmission if confirmable, else with timeout 10. |
| SendListRuns.MessageIdsRepeat | components/esp-aliyun/iotkit-embedded/coap_cloud/CoAPMessage.c:42-47 | Two requests of a run share a message id exactly if the later one came after the ids ran out and the earlier one had id 1. |
| SendListRuns.FirstIdReturns | components/esp-aliyun/iotkit-embedded/coap_cloud/CoAPMessage.c:42-47 | In every run of at least 65535 requests the first and the 65535th have the same id 1. |
| SendListRuns.ListIsNotCappedExactly | components/esp-aliyun/iotkit-embedded/coap_cloud/CoAPMessage.c:85-92 | For every layout and maximum: any number of requests in a row is listed exactly if the compiler puts `count` before `maxcount`; the maximum has no part in it. |
| SendListRuns.ListExceedsMaximum | components/esp-aliyun/iotkit-embedded/coap_cloud/Cloud_CoAPExport.h:35-39 | With the two counters as declared, one request more than any configured maximum is listed. |
| SendListSchedule.ConSchedule | components/esp-aliyun/iotkit-embedded/coap_cloud/CoAPMessage.c:273-309 | A confirmable request left alone is retransmitted exactly in cycles 3, 8 and 17 and leaves in cycle 17; the retry limit 4 is never reached. |
| SendListSchedule.NonSchedule | components/esp-aliyun/iotkit-embedded/coap_cloud/CoAPMessage.c:71-77 | A request that is not confirmable is never retransmitted and leaves in cycle 11. |
| SendListSchedule.AckedSchedule | components/esp-aliyun/iotkit-embedded/coap_cloud/CoAPMessage.c:276-279 | An acknowledged confirmable request is never retransmitted and never leaves by time. |
| SendListSchedule.CycleNodeCases | components/esp-aliyun/iotkit-embedded/coap_cloud/CoAPMessage.c:273-309 | What one timer cycle does to a node, in numbers: count down, stay if acknowledged, resend with the doubled timeout, or leave: without a resend when four are counted already, and with its last resend when the doubled timeout exceeds 10 or three are counted. |
| SendListSchedule.RunMoves | components/esp-aliyun/iotkit-embedded/coap_cloud/CoAPMessage.c:243-311 | In a whole run a request that no event concerns goes through exactly its timer cycles, however many other sends, ACKs and responses happen between them. |
| SendListSchedule.ConInRun | components/esp-aliyun/iotkit-embedded/coap_cloud/CoAPMessage.c:98-311 | The confirmable schedule for a request sent in any sound context and followed by any run without an ACK or response of its own. |
| SendListSchedule.NonInRun | components/esp-aliyun/iotkit-embedded/coap_cloud/CoAPMessage.c:98-311 | The schedule of other requests, likewise. |
| SendListSchedule.AckedInRun | components/esp-aliyun/iotkit-embedded/coap_cloud/CoAPMessage.c:137-149 | An acknowledged request stays listed and silent through every run without a response to it. |
| SendListSchedule.AckMarks | components/esp-aliyun/iotkit-embedded/coap_cloud/CoAPMessage.c:137-149 | In a run of at most 65534 requests an ACK marks the listed request whose message id it carries and changes nothing else in the list. |
| SendListSchedule.AckMarksExactly | components/esp-aliyun/iotkit-embedded/coap_cloud/CoAPMessage.c:137-149 | In every list, for a message of type 2 and code 0: a node with its message id is marked exactly if no earlier node has that id; nodes with other ids stay as they were. |
| SendListSchedule.AckMarksFirst | components/esp-aliyun/iotkit-embedded/coap_cloud/CoAPMessage.c:137-149 | Such a message changes one thing in the whole context: the first node of its id is marked. |
| SendListSchedule.AckMarksAnother | components/esp-aliyun/iotkit-embedded/coap_cloud/CoAPMessage.c:42-47 | With 65533 or more requests between two listed ones, the ACK of the later one marks the earlier one. |
| SendListSchedule.GoneStaysGone | components/esp-aliyun/iotkit-embedded/coap_cloud/CoAPMessage.c:297-303 | A request that has left the list does not come back and is not retransmitted. |
| MessageCache.Cache.Init | components/esp-aliyun/iotkit-embedded/dev_model/dm_message_cache.c:31-47 | An empty cache. |
| MessageCache.Cache.Insert | components/esp-aliyun/iotkit-embedded/dev_model/dm_message_cache.c:73-102 | The entry is appended, with the time of day, unless the cache is full or memory is short. |
| MessageCache.Cache.Search | components/esp-aliyun/iotkit-embedded/dev_model/dm_message_cache.c:104-124 | The first entry of the id; ids that are not positive are refused. |
| MessageCache.Cache.Remove | components/esp-aliyun/iotkit-embedded/dev_model/dm_message_cache.c:126-149 | Exactly the first entry of the id goes. |
| MessageCache.Cache.Tick | components/esp-aliyun/iotkit-embedded/dev_model/dm_message_cache.c:151-176 | The entries kept are those under the timeout, the events offered are those of the entries removed, in list order, and the size counter follows. |
| MessageCache.TickLeavesYoung | components/esp-aliyun/iotkit-embedded/dev_model/dm_message_cache.c:157-173 | After a tick every entry is younger than 10 s, even if the clock went backwards. |
| MessageCache.TickPartitions | components/esp-aliyun/iotkit-embedded/dev_model/dm_message_cache.c:157-173 | Removed and kept entries together are the old list, each once; both keep its order; removed are exactly those at least 10 s old. |
| MessageCache.OfferedIsPrefix | components/esp-aliyun/iotkit-embedded/dev_model/dm_ipc.c:77-108 | A bounded queue takes a prefix of what is offered, as long as there is room. |
| MessageCache.TimeoutEventsTell | components/esp-aliyun/iotkit-embedded/dev_model/dm_message_cache.c:151-176 | Each entry that times out has one event, in order, with its id, its device, its kind of response and the code 100000. |
| MessageCache.EventQueue.Init | components/esp-aliyun/iotkit-embedded/dev_model/dm_ipc.c:32-49 | An empty queue of the given maximum. |
| MessageCache.EventQueue.Insert | components/esp-aliyun/iotkit-embedded/dev_model/dm_ipc.c:77-108 | The event goes to the back, unless the queue is full or memory is short; size is the length. |
| MessageCache.EventQueue.Next | components/esp-aliyun/iotkit-embedded/dev_model/dm_ipc.c:110-135 | The front event, or failure on an empty queue. |
| MessageCache.HandleReply | components/esp-aliyun/iotkit-embedded/dev_model/dm_message.c:555-654 | A reply whose id is cached offers one event, with the device stored at insert, and succeeds exactly if the queue has room; another offers nothing and fails. |
| MessageCache.ProcessReply | components/esp-aliyun/iotkit-embedded/dev_model/dm_msg_process.c:299-341 | The same, and afterwards the entry is gone, whatever the handler did. |
| ReplyRuns.ConcurrentBounds | components/esp-aliyun/iotkit-embedded/dev_model/dm_message_cache.c:73-102 | Under every interleaving of n threads the cache has at most 50 + n - 1 entries, the event queue at most 50, and what was enqueued is what was dequeued followed by what is queued. |
| ReplyRuns.CacheOvershoots | components/esp-aliyun/iotkit-embedded/dev_model/dm_message_cache.c:73-102 | That bound is reached, for every n: the size test is outside the lock. |
| ReplyRuns.OneOutcome | components/esp-aliyun/iotkit-embedded/dev_model/dm_message.c:555-654 | In every interleaving in which no step overlaps a reply to the request, the request has at most one outcome event. |
| ReplyRuns.OneOutcomeExactly | components/esp-aliyun/iotkit-embedded/dev_model/dm_message.c:555-654 | And only then: in a run that loses no event and leaves no reply half done, at most one outcome is the same as no overlap. ReplyCallers.CallersDecide gives the condition a caller can keep. |
| ReplyRuns.LateReplyIsSilent | components/esp-aliyun/iotkit-embedded/dev_model/dm_message.c:555-582 | Once a request is settled, no continuation of the run enqueues anything for it. |
| ReplyRuns.TimeoutSettles | components/esp-aliyun/iotkit-embedded/dev_model/dm_message_cache.c:157-173 | The tick that takes an overdue entry away settles its request if nobody is replying to it. |
| ReplyRuns.TickRunsAlone | components/esp-aliyun/iotkit-embedded/dev_model/dm_message_cache.c:151-176 | The fine-grained tick, uninterrupted, is the tick of the cache as a whole. |
| ReplyRuns.ReplyRunsAlone | components/esp-aliyun/iotkit-embedded/dev_model/dm_msg_process.c:299-341 | The steps of a reply, uninterrupted, are the reply as a whole, whether its search finds an entry or not. |
| ReplyCallers.CallersDecide | components/esp-aliyun/iotkit-embedded/dev_model/impl_linkkit.c:1246-1265 | For every number of threads and every division of inserting, replying and ticking between them: every run has at most one outcome for each request exactly if nobody inserts, nobody replies, or one thread does all replies and ticks; and every event carries the stored device exactly under the same condition. Yielding on one thread meets it. |
| ReplyCallers.TwoThreadsRace | components/esp-aliyun/iotkit-embedded/dev_model/impl_gateway.c:1334-1341 | Under any other division there is a run with two outcomes for one request, the second with a wrong device: a dispatch thread that ticks beside the thread that replies is one. |
| ReplyCallers.RunIsQuiet | components/esp-aliyun/iotkit-embedded/dev_model/dm_msg_process.c:299-341 | With one replying and ticking thread no step overlaps a reply and every entry found is still there when it is read. |
| ReplyCallers.EarlyReplyDropsRequest | components/esp-aliyun/iotkit-embedded/dev_model/dm_manager.c:619-625 | For any replying thread and any other thread that inserts, a run in which a request has no outcome at all: a reply that searched before the request was inserted removes it afterwards. |
| ReplyCallers.CallersServe | components/esp-aliyun/iotkit-embedded/dev_model/dm_manager.c:619-625 | In every run every request that has left the cache has its outcome sent, about to be sent or lost to a full queue, exactly if nobody inserts, nobody replies, or one thread does all inserts and replies; ticks may run anywhere. |
| ReplyCallers.SafeCallersExactly | components/esp-aliyun/iotkit-embedded/dev_model/dm_message.c:555-654 | A program that inserts requests and handles replies keeps all three, at most one outcome, the stored device and no request without outcome, in every run exactly if one single thread inserts, replies and ticks. |
| ReplyCallers.EarlyReplyFreesEntry | components/esp-aliyun/iotkit-embedded/dev_model/dm_manager.c:619-625 | A run in which nothing overlaps the replies to a request and its one event still carries a wrong device. |
| ReplyOutcomes.ReadIsStoredExactly | components/esp-aliyun/iotkit-embedded/dev_model/dm_message.c:574-578 | The device read through the pointer of the search is the stored one, whatever freed memory holds, exactly if the entry is still cached when it is read. |
| ReplyOutcomes.DeviceIsStored | components/esp-aliyun/iotkit-embedded/dev_model/dm_message.c:574-578 | In a run whose reads for a request all find its entry cached, all its events carry the stored device. |
| ReplyOutcomes.DeviceIsStoredExactly | components/esp-aliyun/iotkit-embedded/dev_model/dm_message.c:574-578 | And only then, in runs that lose no event and leave no reply unsent and where freed memory does not happen to hold the old device. |
| ReplyOutcomes.LeavesWithOutcomeExactly | components/esp-aliyun/iotkit-embedded/dev_model/dm_message_cache.c:126-176 | In any single run the one way for a request to leave the cache without an outcome is that a reply that searched before the entry was there takes it away before anybody else has found it. ReplyCallers.CallersServe says which callers never do that. |
| AesCbc.Aes.Init | components/esp-aliyun/wrappers/wrapper_crypto.c:172-217 | A context starts with the given vector. |
| AesCbc.Aes.CryptBlock | components/esp-aliyun/wrappers/wrapper_crypto.c:65-74 | One library call on one block: CBC on it, and the vector moves on to the cipher block. |
| AesCbc.Aes.CbcEncrypt | components/esp-aliyun/wrappers/wrapper_crypto.c:79-105 | The per-block loop is CBC over all blocks and leaves the last cipher block as the vector. |
| AesCbc.Aes.CbcDecrypt | components/esp-aliyun/wrappers/wrapper_crypto.c:51-77 | The same for decryption. |
| AesCbc.CbcRoundTrip | components/esp-aliyun/wrappers/wrapper_crypto.c:51-105 | For every invertible block cipher, key, vector and whole blocks, decryption undoes encryption and both leave the same vector. |
| AesCbc.EncryptAppend | components/esp-aliyun/wrappers/wrapper_crypto.c:93-102 | Encrypting in two calls with the vector carried over is encrypting at once. |
| AesCbc.DecryptAppend | components/esp-aliyun/wrappers/wrapper_crypto.c:65-74 | The same for decryption. |
| CipherFrames.EncryptedBlock | components/esp-aliyun/wrappers/wrapper_crypto.c:79-105 | Cipher block i is the encryption of plain block i xor cipher block i - 1, or xor the vector for block 0 (NIST SP 800-38A section 6.2). |
| CipherFrames.DecryptedByte | components/esp-aliyun/wrappers/wrapper_crypto.c:51-77 | Plain byte j of block i is byte j of the decrypted cipher block xor byte j of the cipher block before it, or of the vector. |
| AesCbc.UnpadPad | components/esp-aliyun/iotkit-embedded/coap_cloud/iotx_coap_api.c:399-407 | Cutting off as many bytes as the last one says undoes the padding, for every message. |
| CipherFrames.PadBytes | components/esp-aliyun/iotkit-embedded/coap_cloud/iotx_coap_api.c:358-361 | A padded message is the message followed by 16 - n % 16 bytes that all have this value (RFC 5652 section 6.3). |
| AesCbc.ChainedRoundTrip | components/esp-aliyun/iotkit-embedded/coap_cloud/iotx_coap_api.c:345-413 | Cloud framing: decryption gives every message back. |
| AesCbc.RestartedRoundTrip | components/esp-aliyun/iotkit-embedded/dev_model/alcs_api.c:286-368 | Local framing, whose last block starts from the vector again: decryption gives every message back. |
| AesCbc.FramingsAgree | components/esp-aliyun/iotkit-embedded/dev_model/alcs_api.c:286-312 | The two framings give the same bytes exactly if the message is shorter than a block or its last full cipher block happens to be the vector. |
| CipherFrames.ChainedFrame | components/esp-aliyun/iotkit-embedded/coap_cloud/iotx_coap_api.c:345-370 | Every block of the cloud framing by that equation, in terms of the message bytes, the pad bytes 16 - n % 16 and the blocks before it. |
| CipherFrames.RestartedFrame | components/esp-aliyun/iotkit-embedded/dev_model/alcs_api.c:286-312 | Every block of the local framing likewise; the last one is chained to the vector again. |
| CipherFrames.CloudVector | components/esp-aliyun/iotkit-embedded/coap_cloud/iotx_coap_api.c:347-347 | The vector of the cloud framing, as text. |
| CipherFrames.LocalVector | components/esp-aliyun/iotkit-embedded/dev_model/alcs_api.c:288-288 | The vector of the local framing, as text. |
| AesFraming.CloudEncrypt | components/esp-aliyun/iotkit-embedded/coap_cloud/iotx_coap_api.c:345-370 | The output buffer holds the chained framing of the message; the result is its length. |
| AesFraming.CloudDecrypt | components/esp-aliyun/iotkit-embedded/coap_cloud/iotx_coap_api.c:372-413 | For any length of at least one block: the buffer holds the plain text of the whole blocks with a terminating 0 at the end of the message; the result is the length less the pad byte found at its end. |
| AesFraming.LocalEncrypt | components/esp-aliyun/iotkit-embedded/dev_model/alcs_api.c:286-312 | The output buffer holds the restarted framing of the message. |
| AesFraming.LocalDecrypt | components/esp-aliyun/iotkit-embedded/dev_model/alcs_api.c:314-368 | The same for the restarted framing. |
| AesFraming.CloudThereAndBack | components/esp-aliyun/iotkit-embedded/coap_cloud/iotx_coap_api.c:345-413 | Both cloud calls in turn give the message, its length and the terminator. |
| AesFraming.LocalThereAndBack | components/esp-aliyun/iotkit-embedded/dev_model/alcs_api.c:286-368 | Both local calls in turn, likewise. |
| Base64.DecodeEncode | components/esp-aliyun/iotkit-embedded/dev_model/alcs_base64.c:42-132 | Decoding the encoding of every non-empty input gives the input, with its exact length. |
| Base64.EncodeDecodeExactly | components/esp-aliyun/iotkit-embedded/dev_model/alcs_base64.c:42-132 | Of all texts of whole groups exactly the canonical ones (RFC 4648 section 3.5) come back from decoding and encoding. |
| Base64.EncodeDecodeCanonical | components/esp-aliyun/iotkit-embedded/dev_model/alcs_base64.c:42-132 | Canonical text comes back. |
| Base64.EncodeIsCanonical | components/esp-aliyun/iotkit-embedded/dev_model/alcs_base64.c:42-76 | The encoder writes canonical text only. |
| Base64Table.LetterIsTable | components/esp-aliyun/iotkit-embedded/dev_model/alcs_base64.c:12-20 | The letter of each of the 64 values is the one in the table of RFC 4648 section 4. |
| Base64Table.EncodedGroup | components/esp-aliyun/iotkit-embedded/dev_model/alcs_base64.c:42-76 | Group k of an encoding is the four table letters of the 24 bits of bytes 3k to 3k + 2, missing bytes counted as 0, with `=` for each letter that stands for no byte. |
| Base64Table.ValueIsPlace | components/esp-aliyun/iotkit-embedded/dev_model/alcs_base64.c:25-40 | A character is a letter exactly if it is in the table, its value is then its place there, and 0 otherwise. |
| Base64Table.DecodedGroup | components/esp-aliyun/iotkit-embedded/dev_model/alcs_base64.c:78-132 | The three bytes decoded from group k are, as a big-endian number, its four values in base 64. |
| Base64Codec.Base64Encode | components/esp-aliyun/iotkit-embedded/dev_model/alcs_base64.c:42-76 | The buffer holds the encoding, or the call is refused because the announced length does not fit. |
| Base64Codec.PutGroups | components/esp-aliyun/iotkit-embedded/dev_model/alcs_base64.c:58-69 | The loop writes all groups, with zeros for missing bytes. |
| Base64Codec.PutPadding | components/esp-aliyun/iotkit-embedded/dev_model/alcs_base64.c:71-73 | The padding replaces the tail. |
| Base64Codec.EncodeFromRaw | components/esp-aliyun/iotkit-embedded/dev_model/alcs_base64.c:58-73 | Groups with the padded tail are the encoding. |
| Base64Codec.Decoder.BuildDecodingTable | components/esp-aliyun/iotkit-embedded/dev_model/alcs_base64.c:25-40 | The table is the inverse of the alphabet from the first call on, and is built once. |
| Base64Codec.Decoder.Base64Decode | components/esp-aliyun/iotkit-embedded/dev_model/alcs_base64.c:78-132 | The buffer holds the decoding with the announced length; lengths that are not whole groups, or do not fit, are refused. |
| Base64Codec.Decoder.GetGroups | components/esp-aliyun/iotkit-embedded/dev_model/alcs_base64.c:110-129 | The loop writes the decoded groups cut to the announced length. |
| KeyStore.RunKeeps | components/esp-aliyun/iotkit-embedded/dev_model/alcs_server.c:307-397 | After every sequence of adds and removes all stored keys have one priority, the counter is the list length, and there are at most ten. |
| KeyStore.AddSucceedsExactly | components/esp-aliyun/iotkit-embedded/dev_model/alcs_server.c:327-369 | An add succeeds exactly if the prefix has 8 characters, the store is not full, memory lasts and no stored key outranks it; then the key joins its equals or replaces the whole store. |
| KeyStore.RefusedAddUnchangedExactly | components/esp-aliyun/iotkit-embedded/dev_model/alcs_server.c:327-369 | A refused add leaves the store unchanged exactly if it is not one that has a proper prefix, finds room, outranks the stored keys and gets no memory; then the store is empty. |
| KeyStore.RefusedAddEmpties | components/esp-aliyun/iotkit-embedded/dev_model/alcs_server.c:327-369 | A store of one key that a refused add empties. |
| KeyStore.AddsOnlyRaise | components/esp-aliyun/iotkit-embedded/dev_model/alcs_server.c:327-369 | While memory lasts, adds never lower the priority of the store. |
| KeyStore.AddedKeyIsFound | components/esp-aliyun/iotkit-embedded/dev_model/alcs_server.c:138-147 | A key just added is found by its prefix, with its own secret, unless an equal prefix of the same priority was stored before; then the old secret stays in force. |
| KeyStore.RemovedKeyIsGone | components/esp-aliyun/iotkit-embedded/dev_model/alcs_server.c:378-397 | A remove takes the first key of the prefix out and leaves the others in order; the prefix is still found exactly if it was stored twice. |
| KeyStore.RevokedExactly | components/esp-aliyun/iotkit-embedded/dev_model/alcs_server.c:123-133 | A sequence number counts as revoked exactly if it is one of the blocks of three characters of the revocation list, whichever. |
| KeyStore.VerdictExactly | components/esp-aliyun/iotkit-embedded/dev_model/alcs_server.c:113-167 | Each of the four verdicts has its exact condition: revoked if in the blocks; list empty if not revoked and there is no key; unmatched if no key and no group has the prefix; legal with the secret of the first key of the prefix, or of the first group if no key has it. |
| KeyStore.AuthList.Init | components/esp-aliyun/iotkit-embedded/dev_model/alcs_api.c:187-244 | An empty store. |
| KeyStore.AuthList.RemoveLowPriority | components/esp-aliyun/iotkit-embedded/dev_model/alcs_server.c:307-325 | The walk keeps exactly the keys at or above the priority, in order, and counts down for the others. |
| KeyStore.AuthList.AddSvrKey | components/esp-aliyun/iotkit-embedded/dev_model/alcs_server.c:327-369 | One add of the model, status included. |
| KeyStore.AuthList.RemoveSvrKey | components/esp-aliyun/iotkit-embedded/dev_model/alcs_server.c:378-397 | The first key of the prefix goes. |
| KeyStore.AuthList.SetRevocation | components/esp-aliyun/iotkit-embedded/dev_model/alcs_server.c:399-419 | The revocation list is replaced; an empty one is none. |
| KeyStore.AuthList.IsLegalKey | components/esp-aliyun/iotkit-embedded/dev_model/alcs_server.c:113-167 | Revoked exactly if the sequence number is one of the blocks of three of the revocation list; else the first key of the prefix, then the first group of the prefix, and groups only if there are keys. |
| KeyStoreThreads.ConcurrentAdds | components/esp-aliyun/iotkit-embedded/dev_model/alcs_server.c:327-369 | However n threads add and others remove, at the grain of the list lock, there are at most 10 + n - 1 keys and their priorities ascend along the list. |
| KeyStoreThreads.AddRunsAlone | components/esp-aliyun/iotkit-embedded/dev_model/alcs_server.c:327-397 | One add that nobody interrupts, and one remove, leave the list that the single-threaded model gives. |
| KeyStoreThreads.TwoPrioritiesMeet | components/esp-aliyun/iotkit-embedded/dev_model/alcs_server.c:333-340 | For every n above 1, a run of n adding threads that leaves keys of two priorities in the store. |
| KeyStoreThreads.OnePriorityExactly | components/esp-aliyun/iotkit-embedded/dev_model/alcs_server.c:327-397 | All stored keys have one priority in every run of n adding threads, with removals at any time, exactly if n is at most 1. |
| KeyStoreThreads.StoreOvershoots | components/esp-aliyun/iotkit-embedded/dev_model/alcs_server.c:329-331 | For every n above 0, a run of n adding threads that stores 10 + n - 1 keys. |
| KeyStoreThreads.MaximumExactly | components/esp-aliyun/iotkit-embedded/dev_model/alcs_server.c:327-397 | A number m bounds the stored keys in every run of n > 0 adding threads exactly if it is at least 10 + n - 1; so the maximum of ten is kept exactly for one of them. |
| SessionSpec.StrncmpSeesCStr | components/esp-aliyun/iotkit-embedded/dev_model/alcs_api.c:76-82 | The checksum comparison sees the checksums only up to the first zero byte. |
| SessionSpec.ObserveNoticedExactly | components/esp-aliyun/iotkit-embedded/dev_model/alcs_server.c:482-502 | Whatever the uninitialised variable held, an observe request is noticed exactly if its value is empty or longer than four bytes. |
| SessionRuns.ChecksumIsToldApartExactly | components/esp-aliyun/iotkit-embedded/dev_model/alcs_api.c:76-82 | The comparison tells a checksum from all others exactly if it has no zero among its first five bytes. |
| SessionRuns.RunSound | components/esp-aliyun/iotkit-embedded/dev_model/alcs_server.c:169-305 | In every run: one session per address and compared checksum, ids ascending along the list, above 255 and never above the seed. |
| SessionRuns.TimerLeavesFresh | components/esp-aliyun/iotkit-embedded/dev_model/alcs_server.c:681-701 | After the timer exactly the sessions heard of in the last 120000 ms are left. |
| SessionRuns.AliveExactly | components/esp-aliyun/iotkit-embedded/dev_model/alcs_server.c:601-701 | A session is alive after a run exactly if no timer came more than 120000 ms after it was last heard of, by a heartbeat of its address or a new authentication of its key. |
| SessionRuns.RunForgets | components/esp-aliyun/iotkit-embedded/dev_model/alcs_server.c:266-279 | A session id that has gone is never issued again. |
| SessionRuns.DispatchExactly | components/esp-aliyun/iotkit-embedded/dev_model/alcs_server.c:477-514 | A protected request reaches a callback exactly if it carries the id of the live session of its address whose checksum compares equal to that of the resource, and there is memory; otherwise it is refused. Without the session option it is always refused. If the checksum of the resource has no zero among its first five bytes, the session is for that very checksum. |
| SessionAnswers.DispatchAnswers | components/esp-aliyun/iotkit-embedded/dev_model/alcs_server.c:477-514 | The whole answer to a request: with r the first resource that serves the path, either one refusal, or the observer entry if observe was noticed and then one call of the callback of r, with the checksum of r, the address, the session id and the key of the entitled session. |
| SessionAnswers.UnservedIsDropped | components/esp-aliyun/iotkit-embedded/dev_model/alcs_server.c:477-514 | A request for a path that no resource serves gets no answer at all. |
| SessionAnswers.ServesExactly | components/esp-aliyun/iotkit-embedded/dev_model/alcs_server.c:455-475 | A plain resource serves the paths of its digest, and a resource registered as a prefix followed by one more character serves exactly the paths that begin with the prefix. |
| SessionRuns.RunWitnessed | components/esp-aliyun/iotkit-embedded/dev_model/alcs_server.c:169-514 | In every run each session and each callback goes back to a grant, and a session id is granted to one address and one compared checksum only. |
| SessionRuns.GrantsAreEarned | components/esp-aliyun/iotkit-embedded/dev_model/alcs_server.c:195-245 | Every grant of a run was made at an authentication from that address at which the prefix of its access key was stored, its sequence number in none of the blocks of three of the revocation list, and its random key signed with the token made from the stored secret. |
| SessionAnswers.AuthIsGranted | components/esp-aliyun/iotkit-embedded/dev_model/alcs_server.c:249-295 | An authentication that meets these conditions gets code 200 and one session of its address and device: the old one with its id and random key, or a new one at the end with the next id; its key is made from the random key of the client followed by that of the server, cut to 39 characters, under the token of access key and secret; its times are now, and no other session changes. |
| SessionAnswers.AuthIsRefused | components/esp-aliyun/iotkit-embedded/dev_model/alcs_server.c:169-305 | Every other authentication changes nothing and is answered 200 (no parameters or no key of 13 characters), 501 (revoked), 504 (no keys), 502 (prefix unknown), 503 (something missing) or 506 (wrong signature), in this order. |
| SessionAnswers.DeviceSumIs | components/esp-aliyun/iotkit-embedded/dev_model/alcs_server.c:269-271 | The checksum of a device is that of product key and device name together, cut to 99 characters. |
| SessionAnswers.RevocationIsInForce | components/esp-aliyun/iotkit-embedded/dev_model/alcs_server.c:399-419 | Once a revocation list is set, an access key whose sequence number is any of its blocks is refused with 501. |
| SessionAnswers.KeyEventsReachStore | components/esp-aliyun/iotkit-embedded/dev_model/alcs_server.c:327-397 | Adding and removing keys in a run is adding and removing in the key store, and touches nothing else. |
| SessionRuns.CallbackNeedsAuthentication | components/esp-aliyun/iotkit-embedded/dev_model/alcs_server.c:477-514 | In every run from the start, a callback is preceded by such an authentication from the same address for a device whose checksum compares equal to that of the resource; it is the same checksum if that of the resource has no zero among its first five bytes. |
| SessionRuns.GuardedExactly | components/esp-aliyun/iotkit-embedded/dev_model/alcs_server.c:477-514 | Over all digests, resources registered with them, key groups and runs: every callback for a checksum is preceded by an authentication for that very checksum exactly if it has no zero among its first five bytes. |
| SessionRuns.MatchingChecksumReachesCallback | components/esp-aliyun/iotkit-embedded/dev_model/alcs_api.c:76-82 | For any two checksums that compare equal: a program of two devices with these checksums, and a run of it in which a client that authenticated for one reaches the callback of a resource registered for the other. |
| SessionRuns.OtherDeviceReachesCallback | components/esp-aliyun/iotkit-embedded/dev_model/alcs_api.c:76-82 | Such a run with the checksums 0,1,1,1,1,1 and 0,2,2,2,2,2. |
| SessionRuns.EmptyOkExactly | components/esp-aliyun/iotkit-embedded/dev_model/alcs_server.c:169-305 | An authentication without a session is still answered 200 exactly if it has no parameters or no access key of 13 characters. |
| SessionRuns.UnparsedIsAnsweredOk | components/esp-aliyun/iotkit-embedded/dev_model/alcs_server.c:195-205 | An authentication without parameters is answered 200 and gets no session. |
| SessionServer.Server.Init | components/esp-aliyun/iotkit-embedded/dev_model/alcs_server.c:17-17 | No sessions, seed 255. |
| SessionServer.RegisterSecure | components/esp-aliyun/iotkit-embedded/dev_model/alcs_server.c:516-571 | One registration of the model: a plain path whose checksum is not there yet, or a path with "/#", is put at the end with the checksum of its device, if memory lasts. |
| SessionAnswers.RegisterAdds | components/esp-aliyun/iotkit-embedded/dev_model/alcs_server.c:516-571 | A registration adds one resource at the end with the given callback and the checksum of the given device: under the path itself if it holds "/#", else under its digest unless that is registered; without memory it adds none. |
| SessionAnswers.FilterExactly | components/esp-aliyun/iotkit-embedded/dev_model/alcs_server.c:516-571 | A path is taken as a filter exactly if a slash is followed by "#" somewhere in it. |
| SessionServer.Server.GetSessionByChecksum | components/esp-aliyun/iotkit-embedded/dev_model/alcs_api.c:70-84 | The first session of the address and checksum. |
| SessionServer.Server.OpenSession | components/esp-aliyun/iotkit-embedded/dev_model/alcs_server.c:249-295 | Finds or appends the session, renews its key and times, and answers with its id. |
| SessionServer.Server.RecAuth | components/esp-aliyun/iotkit-embedded/dev_model/alcs_server.c:169-305 | One authentication step: the checks in their order with their codes, or the session. |
| SessionServer.Server.RecHeartBeat | components/esp-aliyun/iotkit-embedded/dev_model/alcs_server.c:601-654 | Every session of the address is renewed, and the answer says whether there was one; no answer when there are no sessions at all. |
| SessionAnswers.HeartAnswers | components/esp-aliyun/iotkit-embedded/dev_model/alcs_server.c:601-654 | A heartbeat sets the time of exactly the sessions of its address, and is answered with whether there is one, or not at all when there are no sessions. |
| SessionServer.Server.OnAuthTimer | components/esp-aliyun/iotkit-embedded/dev_model/alcs_server.c:681-701 | The walk removes exactly the stale sessions and keeps the order. |
| SessionServer.Server.RecvMsg | components/esp-aliyun/iotkit-embedded/dev_model/alcs_server.c:477-514 | One dispatch step: nothing, a refusal, or the observer entry and the callback; the observe value is ORed into a word of any content. |
| DeviceRegistry.RunKeeps | components/esp-aliyun/iotkit-embedded/dev_model/dm_manager.c:213-300 | Over every run of create and destroy: ids ascend along the list, names are distinct, the local node stays first. |
| DeviceRegistry.NeverReissued | components/esp-aliyun/iotkit-embedded/dev_model/dm_manager.c:32-37 | An id that was handed out and is gone is never handed out again. |
| DeviceRegistry.IdsAreStable | components/esp-aliyun/iotkit-embedded/dev_model/dm_manager.c:213-300 | An id names the same device, unchanged, until a destroy of that id; the local node always stays. |
| DeviceRegistry.CreateExactly | components/esp-aliyun/iotkit-embedded/dev_model/dm_manager.c:213-265 | A create succeeds exactly for acceptable names that are free while memory lasts; the new node stands at the end with an id no device ever had, the type, names and secret of the call (an empty secret for a null one), and both lookups find it. Taken names give failure and the id that is there, unacceptable ones an invalid parameter; a create that does not succeed changes nothing. |
| DeviceRegistry.AcceptableExactly | components/esp-aliyun/iotkit-embedded/dev_model/dm_manager.c:213-230 | Acceptable are a product key of at most 20 characters, a device name of at most 32, and a secret of at most 64 or none. |
| DeviceRegistry.DestroyExactly | components/esp-aliyun/iotkit-embedded/dev_model/dm_manager.c:267-300 | A destroy succeeds exactly for a present id other than 0, and takes exactly that node out; negative ids are an invalid parameter; otherwise nothing changes. |
| DeviceRegistry.LookupsAreInverse | components/esp-aliyun/iotkit-embedded/dev_model/dm_manager.c:39-79 | Looking up by id and by name are inverse to each other. |
| DeviceRegistry.EveryDeviceOnce | components/esp-aliyun/iotkit-embedded/dev_model/dm_manager.c:336-358 | Asking for the next id from the local node on visits every device exactly once, in ascending order. |
| DeviceRegistry.WalkMeetsStayers | components/esp-aliyun/iotkit-embedded/dev_model/dm_manager.c:336-358 | If devices come and go during such a walk but never the one it stands on, it still visits every device that stayed. |
| DeviceRegistry.Manager.Init | components/esp-aliyun/iotkit-embedded/dev_model/dm_manager.c:155-196 | The registry holds the local node with id 0; the next id is 1. |
| DeviceRegistry.Manager.SearchByDevid | components/esp-aliyun/iotkit-embedded/dev_model/dm_manager.c:39-56 | The first node of the id. |
| DeviceRegistry.Manager.SearchByPkdn | components/esp-aliyun/iotkit-embedded/dev_model/dm_manager.c:58-79 | The first node of the names. |
| DeviceRegistry.Manager.DeviceCreate | components/esp-aliyun/iotkit-embedded/dev_model/dm_manager.c:213-265 | One create of the model: status, id written, new state. |
| DeviceRegistry.Manager.DeviceDestroy | components/esp-aliyun/iotkit-embedded/dev_model/dm_manager.c:267-300 | One destroy of the model; the local node and unknown ids are refused. |
| DeviceRegistry.Manager.GetDevidByIndex | components/esp-aliyun/iotkit-embedded/dev_model/dm_manager.c:315-334 | The id at the position, or failure. |
| DeviceRegistry.Manager.GetNextDevid | components/esp-aliyun/iotkit-embedded/dev_model/dm_manager.c:336-358 | The id behind the given one in the list, or failure. |
| SubscribeLoop.EveryEntryServed | components/esp-aliyun/iotkit-embedded/dev_model/dm_client.c:120-153 | Every wanted topic is tried once to three times, all tries but the last fail, it is given up only after three failures in a row, and others are not tried. |
| SubscribeLoop.EveryTopicServed | components/esp-aliyun/iotkit-embedded/dev_model/dm_client.c:72-160 | The same for both loops together: wanted are the topics not filtered whose device type matches, and the first topic also when the device is not a single one. |
| SubscribeLoop.CallsInOrder | components/esp-aliyun/iotkit-embedded/dev_model/dm_client.c:120-153 | The calls are numbered in the order of the topics and each has the result the network gives to its number. |
| SubscribeLoop.SubscribeFirst | components/esp-aliyun/iotkit-embedded/dev_model/dm_client.c:84-107 | The calls made for the first topic. |
| SubscribeLoop.SubscribeAll | components/esp-aliyun/iotkit-embedded/dev_model/dm_client.c:72-160 | The loop that steps its index back ends, and its calls are one block for every wanted topic, in order. |
| TopicNames.Memtok | components/esp-aliyun/iotkit-embedded/dev_model/dm_utils.c:270-290 | Finds the delimiter of the given number exactly if there is one; a delimiter at the very end is not one. |
| TopicNames.TokenIsUnique | components/esp-aliyun/iotkit-embedded/dev_model/dm_utils.c:270-290 | There is at most one delimiter of a number. |
| TopicNames.UriParsePkdn | components/esp-aliyun/iotkit-embedded/dev_model/dm_message.c:76-108 | Key and name are what stands between the delimiters, or there is no reading. |
| TopicNames.ParsesIsUnique | components/esp-aliyun/iotkit-embedded/dev_model/dm_message.c:76-108 | A topic has at most one reading. |
| TopicNames.SysTopic | components/esp-aliyun/iotkit-embedded/dev_model/dm_utils.c:309-336 | A system topic is "/sys/", key, "/", name, "/", service. |
| TopicNames.FormatFits | components/esp-aliyun/iotkit-embedded/dev_model/dm_utils.c:320-328 | The formatted prefix fits the buffer allocated for it. |
| TopicNames.PartsComeBackExactly | components/esp-aliyun/iotkit-embedded/dev_model/dm_message.c:76-108 | A topic gives key and name back exactly if neither holds a slash and the service is not empty. |
| TopicNames.TopicRoundTrip | components/esp-aliyun/iotkit-embedded/dev_model/dm_utils.c:309-357 | The same for built topics, at delimiter 2 as they are and at delimiter 3 with the prefix of the CoAP build. |
| ArrayKeys.StrarrIndex | components/esp-aliyun/iotkit-embedded/dev_model/dm_utils.c:41-99 | The bracket loop accepts exactly a bracket-free key followed by one bracketed non-empty text at the end, and reports key length, full length and index. |
| ArrayKeys.ArrayIndexReads | components/esp-aliyun/iotkit-embedded/dev_model/dm_utils.c:41-99 | A bracket-free key with a bracket-free non-empty text in brackets behind it is accepted, with the number that the text reads as. |
| ArrayKeys.ArrayIndexRefuses | components/esp-aliyun/iotkit-embedded/dev_model/dm_utils.c:41-99 | And nothing else is accepted. |
| ArrayKeys.AtoiReads | components/esp-aliyun/iotkit-embedded/dev_model/dm_utils.c:125-147 | White space, a sign and decimal digits read as the number in base ten, up to the first character that is no digit. |
| ArrayKeys.ItoaWrites | components/esp-aliyun/iotkit-embedded/dev_model/dm_utils.c:125-147 | A number below 10^9 is written as its decimal digits without leading zeros. |
| ArrayKeys.AtoiItoaExactly | components/esp-aliyun/iotkit-embedded/dev_model/dm_utils.c:125-147 | A number survives its way through text exactly if it is below 10^9. |
| ArrayKeys.TenDigitsLoseOne | components/esp-aliyun/iotkit-embedded/dev_model/dm_utils.c:125-147 | A number of ten digits comes back without its last one. |
| ArrayKeys.ArrayKeyRoundTrip | components/esp-aliyun/iotkit-embedded/dev_model/dm_message.c:2267-2304 | An element key is taken apart into array key and index exactly if the array key has no brackets and the index is below 10^9; keys of nested arrays are not. |

## Left out

Stated for fewer inputs than the C function accepts:

- CoapDeserialize.DeserializeMessage: only for bytes with at most twelve options, a token of at most 8 bytes and every byte looked at inside the receive memory; on others the C code reads or writes outside its arrays.
- CoapMessage.Message.UintOptionAdd: allocation succeeds; the C function stores a null value otherwise.
- CoapMessage.Message.StrOptionAdd: option values are snapshots; the model has no aliasing between option values and the buffers they came from.
- CoapSerialize.SerializeMessage: for messages whose true size fits the buffer; the C function tests only a 16-bit length before it.
- CoapRequest.SplitPath: segments that a slash follows are at most 127 bytes long; the C function copies longer ones past its buffer. The last segment of a URI may have any length.
- CoapRequest.AddRequestOptions: the same.
- CoapRequest.RequestRoundTrip: the same.
- SendList.Context.SendRequest: the node's copy of the message always exists; a null copy would be retransmitted as such by the C code.
- SendListRuns.ResponseCorrelation: for at most 2^32 requests, after which the token counter repeats.
- AesFraming.CloudDecrypt: for at least one block and a pad byte that is at most the length; for others the C code reads or writes outside its buffers.
- AesFraming.LocalDecrypt: the same.
- Base64Codec.Decoder.Base64Decode: for non-empty input; the C function reads in front of an empty one.
- KeyStore.RunKeeps: for one thread at a time; KeyStoreThreads has the interleavings.
- KeyStore.AuthList.IsLegalKey: the sequence number has no zero characters, as it comes out of a JSON string.
- SessionServer.RegisterSecure: a second path with `/#` is registered like the first; the C function takes the length of a null pointer there.
- SessionRuns.RunSound: ids and times are unbounded integers; the wrap of the C `int` after 2^31 is not modelled.
- SessionRuns.RunWitnessed: key groups and resources are given at the start of a run and stay.
- DeviceRegistry.RunKeeps: device ids are unbounded integers.
- SubscribeLoop.SubscribeAll: building a topic name succeeds; where it fails for good, the C loop does not end. Whether an entry is filtered does not change during the loop.
- TopicNames.UriParsePkdn: the parts fit the caller's buffers, which start out empty; the C function does not test this.
- ArrayKeys.StrarrIndex: an index text of ten or more characters exceeds the buffer of the C function; the model gives the number it would read there.

Not modelled:

- Linked lists are sequences; pointers, freeing and list links are not modelled.
- Response handlers and resource callbacks do not touch the context that calls them; the handler of an unauthorized reply, which sends and receives inside the list walk, does.
- The reply handlers that do not consult the cache (register, login, logout, topology), and failed allocation of a timeout or reply event in `ReplyRuns`. Deinitialisation of the cache.
- Failures of the cipher library, and the cipher and the digests themselves.
- Session checksums of product keys of 100 or more characters, which overrun a buffer; allocation of a session; deletion of observers with a session.
- The client side of local control, which is disabled by configuration; access-key selection; key groups beyond the lookup.
- JSON, the CoAP server, observe lists, the HAL wrappers other than the CBC loops, options, logging, NTP, OTA and deinitialisation.
- Device status, shadow and gateway unsubscription in the registry; they do not influence the list.
- Subscription persistence and the second loop for server topics, which retries without limit.
