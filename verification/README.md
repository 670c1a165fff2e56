# OTA over WebSocket: a verified model

The device pulls a firmware file from a browser over a WebSocket, chunk by chunk, and makes it bootable. With
pre-encrypted images a streaming decoder sits between the socket and the flash partition: RSA unwraps an AES key,
AES-GCM decrypts and authenticates. Messages are small JSON objects, tokenized in place by jsmn.

The project models these parts as they are written, state updated step by step, and proves what they compute and
how they compose.

| file | what it models |
|---|---|
| `Bytes.dfy`, `Gcm.dfy` | bytes and little-endian words; GCTR, GHASH and the tag of NIST SP 800-38D over an arbitrary block cipher; the contract of the GCM context |
| `GcmFacts.dfy` | the same by position and by block: which counter block masks a byte, what a tag is a chain of |
| `Image.dfy`, `Tool.dfy` | the image format; the image tool, which writes and reads it in one shot |
| `DecoderSpec.dfy` | what decoding a stream means: no header states, no buffers, no indices, no mention of how the stream was cut beyond what each call returns |
| `Decoder.dfy` | the decoder handle with its fields, cache array and output buffer, proved to be that meaning |
| `Lexer.dfy`, `Tokens.dfy`, `TokenFacts.dfy` | jsmn as a machine with an explicit stack of open brackets and explicit parents, in its scanning and its parent-link form, and its properties on arbitrary texts |
| `Lexemes.dfy` | exactly which strings and primitives the lexer accepts and which it rejects, on every text |
| `Jsmn.dfy` | the parser itself: one cursor, one token array, `toksuper` instead of a stack, proved to be that machine |
| `Json.dfy`, `RoundTrip.dfy` | JSON texts after sections 2 to 7 of RFC 8259 with arbitrary whitespace; the parser inverts the printer |
| `ParentLinks.dfy` | the scanning and the parent-link form of jsmn in lockstep on any text: exactly which lexemes part them |
| `Commands.dfy` | `json_to_str_parm`, `atoi` and the client's messages |
| `Backends.dfy`, `Server.dfy`, `Transfer.dfy` | the two backends, the socket handler and the client as step functions; safety over all runs, and the transfer from click to boot |
| `Outcomes.dfy` | what each frame comes to: exactly when the handler refuses it, and what happens then and otherwise |
| `Recovery.dfy` | the transfer when platform calls fail: every run ends with both parties ready for the next click |
| `Restart.dfy` | cancelling and starting again: two sessions on the same channels, and exactly when a chunk of one reaches the other |
| `Device.dfy`, `Handler.dfy` | the server's side in place: the static variables of both backends and of the handler, each operation proved to be its step |
| `Session.dfy` | the script in place, and the script and the server objects connected by two queues and run until both are empty |

The chain is complete: `Handler.OtaServer.OtaWsHandler` runs `Commands.JsonToStrParm`, which runs
`Jsmn.Parser.Parse`, and the backend's methods, which run `Decoder.Handle.DecryptData`; every link is an equation
between the new state and a function of the old one. The main results are about those functions; `Session.Run` brings
the last of them back to the objects.

Assumptions. The block cipher, the field multiplication and RSA are parameters; the only law assumed of them is that
RSA encryption makes 384 bytes of a 32-byte key, from which RSA decryption recovers it, and only where the tool's
output is concerned (`Tool.RsaLaws`; `Tool.RsaLawsMet` shows that it can be met with any cipher). The mbedTLS GCM context
is taken by its contract. Which platform calls succeed (partition lookup, `esp_ota_begin`, `esp_ota_write`,
`esp_ota_end`, `esp_ota_set_boot_partition`, `esp_encrypted_img_decrypt_start`) is an arbitrary input of every step; what
they do to the flash is ghost state. Allocation succeeds otherwise, except that `realloc` to size 0 yields NULL as the
ESP-IDF heap does. Words read from a byte buffer are little-endian, chunk lengths
fit an `int`, and the 32-bit wrap-around of `binary_file_read` and of the chunk comparison is part of the model.

Where the code is not what one might expect, the model follows the code:

- `esp_encrypted_img_decrypt_end` returns OK for a stream that has not got past its header
  (`DecoderSpec.AcceptIffExact` has the exact condition, `DecoderSpec.EarlyOk` an input), and
  `esp_encrypted_img_is_complete_data_received` does not look at the state
  (`Decoder.Handle.IsCompleteDataReceived` says when it is true). The backend cannot reach the early OK
  (`Backends.FinishSafe`).
- An empty payload makes the decoder resize its output buffer to 0 and return NO_MEM where OK is expected.
  `DecoderSpec.NoMemIff` has the exact condition; every cut of such an image ends that way (`DecoderSpec.EmptyPayload`,
  `Tool.EmptyToDevice` for the tool's own), and `end` then judges it by its tag as ever.
- The last frame of an update may carry more than was announced, and all of it is written: `Server.Overrun` is such an
  input, and `Server.BootSafety` says exactly when the length is right. Less than announced never boots.
- A key that RSA recovers with fewer than 32 bytes is filled up with zeros by the device and used as it is by the tool;
  `Tool.DeviceAgreesWithTool` characterises both, and `Transfer.ShortKeyBoots` boots an image the tool refuses.
- `ota_ws_handler` takes a negative announced size and starts a session with it (`Server.NegativeSize` gives the frames);
  `Server.StepCounts` shows that this is the one kind of frame that breaks the handler's invariant.
- Off the JSON grammar the parent-link form of jsmn and the scanning form can part: in the code
  (`ParentLinks.LinksDiverge`), or in the child counts of a text both accept (`ParentLinks.CountsDiverge`,
  `ParentLinks.CommaDiverges`). `ParentLinks.StepIff` and `ParentLinks.TogetherIff` say exactly when; on JSON texts
  they never do, whatever the capacity.
- After a cancellation and an immediate restart the server can take a chunk of the old session for the first of the new
  one. `Restart.StaleIff` says exactly when, `Restart.StaleChunk` shows what it does to the partition; so the transfer is
  proved from empty channels.

## Model

| member | source | states |
|---|---|---|
| Gcm.GctrPrefix | esp_encrypted_img/src/esp_encrypted_img.c:190-196 | GCTR with a partial last block decrypts every prefix of a stream independently of what follows it |
| GcmFacts.CryptAt | esp_encrypted_img/src/esp_encrypted_img.c:190-213 | byte i of a payload is its exclusive or with byte i mod 16 of the enciphered counter block that agrees with the pre-counter block in its first 12 bytes and has the number in the last four counted on by 1 + i/16 modulo 2^32 |
| GcmFacts.CounterIs | esp_encrypted_img/src/esp_encrypted_img.c:350-353 | there is exactly one such counter block |
| GcmFacts.CounterWord | esp_encrypted_img/src/esp_encrypted_img.c:350-353 | the counter is read with its most significant byte first |
| GcmFacts.XorByteBit | esp_encrypted_img/src/esp_encrypted_img.c:190-213 | bit k of a masked byte is the parity of the two bits k |
| GcmFacts.BigEndianRead | esp_encrypted_img/src/esp_encrypted_img.c:350-353 | a number encoded in w bytes reads back as its remainder modulo 256^w |
| GcmFacts.PreCounterIs | esp_encrypted_img/src/esp_encrypted_img.c:345-356 | the pre-counter block of a 16-byte nonce is two products with the enciphered zero block: of the nonce, and of that with the length of 128 bits |
| GcmFacts.TagAt | esp_encrypted_img/src/esp_encrypted_img.c:431-443 | the tag is the last value of the chain of products over the zero-filled blocks of the ciphertext and the two 64-bit lengths, starting from zero, masked with the enciphered pre-counter block |
| Gcm.CryptInvolution | esp_encrypted_img/tools/esp_enc_img_gen.py:77-80 | decrypting a ciphertext of any length under the same key and nonce gives back the plaintext |
| Gcm.OutputAppend | esp_encrypted_img/src/esp_encrypted_img.c:205-213 | two updates of a GCM context in a row output what one update with both inputs does |
| Image.HeaderGrows | esp_encrypted_img/src/esp_encrypted_img.c:54-62 | bytes received later never change a header field already received, nor the key it unwraps to |
| DecoderSpec.RunReceives | esp_encrypted_img/src/esp_encrypted_img.c:281-404 | whatever the cuts, a session is alive exactly as long as the magic of the stream so far is right and its key unwraps, and then it has taken in exactly that stream |
| DecoderSpec.MagicDecides | esp_encrypted_img/src/esp_encrypted_img.c:282-311 | three bytes never fail; a wrong magic is rejected with the fourth, a right one is not |
| DecoderSpec.OutputsAreSettled | esp_encrypted_img/src/esp_encrypted_img.c:163-248 | over any run from any state, what has been output is the decryption of exactly the ciphertext fed to the cipher: nothing lost, repeated or out of order |
| DecoderSpec.HeldBackOverRuns | esp_encrypted_img/src/esp_encrypted_img.c:170-216 | on every stream short of its declared length, however cut, exactly the last (ciphertext length mod 16) bytes are held back and the output is the decryption of all bytes before them |
| DecoderSpec.PartwayAdvance | esp_encrypted_img/src/esp_encrypted_img.c:172-247 | each call on a proper part of an image returns NOT_FINISHED and keeps whole blocks fed; the call that completes it returns OK and leaves nothing held back |
| DecoderSpec.CallIs | esp_encrypted_img/src/esp_encrypted_img.c:163-411 | one call on any session with any bytes, over-long streams included: it fails exactly on an unacceptable header; the code says whether the stream is complete, modulo 2^32, and whether anything was left to decrypt; a complete stream is fed whole, of any other whole blocks are fed and less than one is held back |
| DecoderSpec.ChunkIndependence | esp_encrypted_img/src/esp_encrypted_img.c:163-411 | every cut of a well-formed image into non-empty chunks, inside any field or block: all calls but the last NOT_FINISHED, the last OK, and the outputs together are the one-shot decryption |
| DecoderSpec.AcceptIffExact | esp_encrypted_img/src/esp_encrypted_img.c:413-456 | for every stream, however cut: past the header, `end` accepts if and only if the ciphertext has the declared length as a 32-bit counter has it, which below 2^32 bytes is exactly the declared length, and its one-shot GCM tag is the header's; before that it accepts unconditionally |
| DecoderSpec.EarlyOk | esp_encrypted_img/src/esp_encrypted_img.c:424-449 | four bytes that are not the magic, after which `end` returns OK |
| DecoderSpec.NoMemIff | esp_encrypted_img/src/esp_encrypted_img.c:217-221 | a call returns NO_MEM if and only if it completes an image whose payload is declared empty, or is given no bytes on a complete one |
| DecoderSpec.EmptyPayload | esp_encrypted_img/src/esp_encrypted_img.c:217-221 | every cut of an image with an empty payload: all calls but the last NOT_FINISHED, the last NO_MEM, no output; `end` accepts if and only if the tag is that of the empty ciphertext |
| Decoder.Realloc | esp_encrypted_img/src/esp_encrypted_img.c:217-221 | a new block with the old contents up to the smaller size, NULL exactly for size 0 |
| Decoder.Handle.constructor | esp_encrypted_img/src/esp_encrypted_img.c:122-161 | a handle in the fresh session, all fields zero |
| Decoder.Handle.ReadAndCache | esp_encrypted_img/src/esp_encrypted_img.c:250-265 | the chunk's next bytes, as many as the field still lacks or the chunk still has, are appended to what the field's buffer holds, and all three counters move by that number |
| Decoder.Handle.FetchMagic | esp_encrypted_img/src/esp_encrypted_img.c:282-309 | straight from the chunk or out of the cache, the magic is the word of the first four stream bytes, and it is there exactly when they are |
| Decoder.Handle.MagicField | esp_encrypted_img/src/esp_encrypted_img.c:282-311 | the session dies exactly on a wrong magic, for good |
| Decoder.Handle.DecipherGcmKey | esp_encrypted_img/src/esp_encrypted_img.c:69-120 | on success the key is the unwrapped one, the cache shrinks to 16 bytes and the IV is next; either way the private key is gone, so no later attempt can succeed |
| Decoder.Handle.FetchKey | esp_encrypted_img/src/esp_encrypted_img.c:313-330 | on the fast and the cached path alike, what is unwrapped is the 384 stream bytes after the magic |
| Decoder.Handle.FetchInPlace | esp_encrypted_img/src/esp_encrypted_img.c:332-391 | IV and tag buffers hold the field's bytes received so far, whichever mix of paths brought them |
| Decoder.Handle.FetchSize | esp_encrypted_img/src/esp_encrypted_img.c:361-375 | the declared length is the word of the four stream bytes at its place, on either path |
| Decoder.Handle.GcmUpdate | esp_encrypted_img/src/esp_encrypted_img.c:190-212 | an update fits the capacity passed and appends the next stretch of plaintext; unless it is the last, inputs so far are whole blocks |
| Decoder.Handle.ProcessBin | esp_encrypted_img/src/esp_encrypted_img.c:163-248 | the inputs given to the cipher are the ciphertext in order, all but possibly the last in whole blocks; the output buffer has exactly the size announced and holds the one-shot plaintext of what was fed in this call; the rest is in the cache |
| Decoder.Handle.DecryptData | esp_encrypted_img/src/esp_encrypted_img.c:267-411 | a call moves the session as `DecoderSpec.Advance` says, returns its verdict, and leaves its output in the argument record; without data it refuses and changes nothing |
| Decoder.Handle.End | esp_encrypted_img/src/esp_encrypted_img.c:413-456 | the verdict is the one the whole stream deserves, whatever the buffers look like |
| Decoder.Handle.IsCompleteDataReceived | esp_encrypted_img/src/esp_encrypted_img.c:458-462 | true past the header exactly when the declared length is there; in the header exactly at the listed boundaries, the very start among them; after a failure exactly when nothing is cached |
| Tool.BinaryRoundTrip | esp_encrypted_img/tools/esp_enc_img_gen.py:37-40 | `encrypt_binary` takes exactly what the library takes, `decrypt_binary` undoes it, and the tag is the 16-byte rest |
| Tool.RsaLawsMet | esp_encrypted_img/tools/esp_enc_img_gen.py:62 | for every block cipher and field product there is an RSA that meets the laws assumed of it |
| Tool.Encrypt | esp_encrypted_img/tools/esp_enc_img_gen.py:43-74 | writes the seven fields in order, and fails exactly on inputs of 2^31 bytes or more, which the AES-GCM library refuses before the length field could overflow |
| Tool.EncryptedLayout | esp_encrypted_img/tools/esp_enc_img_gen.py:59-72 | every field of the written file is where the device looks for it, unwraps and decrypts to what went in, and the reserved part is zero |
| Tool.Decrypt | esp_encrypted_img/tools/esp_enc_img_gen.py:83-109 | the sequential reads pick the fields at their fixed places, short files included |
| Tool.DecryptedIs | esp_encrypted_img/tools/esp_enc_img_gen.py:83-109 | `decrypt` on every file, short and over-long ones included: an error if it ends before its tag does; otherwise the plaintext of as much ciphertext as was declared, or as there is, if the magic is right, RSA recovers a key of a size AES has and the tag is that ciphertext's, and an error if not |
| Tool.DecryptedFields | esp_encrypted_img/tools/esp_enc_img_gen.py:88-105 | a file of the declared length decrypts to the one-shot plaintext under the recovered key, if AES takes a key of that size and the tag matches, and to an error otherwise |
| Tool.ToolRoundTrip | esp_encrypted_img/tools/esp_enc_img_gen.py:43-109 | `decrypt` gives back what `encrypt` was given, for every input that fits, key, nonce and padding |
| Tool.ToolToDevice | esp_encrypted_img/src/esp_encrypted_img.c:267-456 | the device turns every file the tool writes, cut in any way, back into the tool's input, with OK from the last call and from `end` |
| Tool.EmptyToDevice | esp_encrypted_img/src/esp_encrypted_img.c:217-221 | the one input of the tool the device does not finish with OK is the empty one: its last call returns NO_MEM, and `end` accepts |
| Tool.DeviceAgreesWithTool | esp_encrypted_img/src/esp_encrypted_img.c:413-456 | for every stream with an acceptable header and whatever number of bytes RSA recovers: the device accepts exactly the streams of the declared length whose tag is right under the key filled up with zeros, and outputs their plaintext under it; on streams of that length the tool does the same under the key as recovered, if AES has keys of that size. So with 32 bytes the device accepts what has the declared length and the tool decrypts, to the same plaintext, and with a size unknown to AES the tool refuses |
| Tool.ShortKeyImage | esp_encrypted_img/src/esp_encrypted_img.c:100-104 | for every plaintext, an image with a key of 20 bytes that the device decrypts to it and the tool refuses |
| Tokens.InnermostOpen | private_include/jsmn.h:376-403 | the last token without an end is the top of the stack of unmatched brackets: scanning backwards is popping |
| Tokens.ApplyInv | private_include/jsmn.h:301-496 | every step, in either form and on any text, keeps: the tokens without an end are exactly the unmatched brackets, in order, and every token's parent is an earlier one |
| Tokens.AdvanceEffect | private_include/jsmn.h:301-496 | a round adds one token, or closes one bracket, or leaves the tokens alone, according to the lexeme |
| TokenFacts.ChildCounts | private_include/jsmn.h:321-338 | on every text and at every stop, malformed ones included, `size[i]` is the number of tokens whose parent is `i`, and sizes plus roots add up to `toknext` |
| TokenFacts.Nesting | private_include/jsmn.h:301-404 | at every stop starts increase with the index, every token is enclosed by the characters of its kind, and any two spans are nested or disjoint |
| TokenFacts.Success | private_include/jsmn.h:498-510 | on success all tokens are closed and form a forest of nested spans; the code is their number, roots plus sizes |
| TokenFacts.CodeIsJudged | private_include/jsmn.h:293-511 | the code is the verdict of a bracket matcher that keeps no tokens; NOMEM replaces it exactly when the tokens needed so far exceed the capacity |
| TokenFacts.CountingAgrees | private_include/jsmn.h:312-345 | when filling succeeds with r, counting returns r, and the count is always room enough; where counting fails, filling with room fails with the same code, or earlier with INVAL at a bracket |
| TokenFacts.SameAgain | private_include/jsmn.h:293-511 | after any stop, an error or the end, another call with the same array changes nothing and returns the same code |
| TokenFacts.RestartAll | private_include/jsmn.h:299-320 | for every growing sequence of capacities, going on after each NOMEM ends in the code, cursor, `toksuper` and tokens of one call with the last capacity |
| Jsmn.Parser.AllocToken | private_include/jsmn.h:113-128 | hands out the next token, blank, or none exactly when the capacity is used up |
| Jsmn.Parser.ParsePrimitive | private_include/jsmn.h:145-204 | one more token spanning the primitive and the cursor on its last character, or an error with the cursor back |
| Jsmn.Parser.ParseString | private_include/jsmn.h:209-288 | one more token spanning the contents and the cursor on the closing quote, or the error for a bad escape or a missing quote, with the cursor back |
| Jsmn.Parser.FindOpen | private_include/jsmn.h:376-403 | the last open token at or before an index |
| Jsmn.Parser.CloseBracket | private_include/jsmn.h:340-405 | closes the innermost open bracket if it has the closer's type and makes the next open one super; refuses otherwise |
| Jsmn.Parser.Separator | private_include/jsmn.h:426-447 | after a member the enclosing object is super again |
| Jsmn.Parser.Parse | private_include/jsmn.h:293-511 | cursor, tokens and code are those of the stack machine from the same state, and without an array those of plain counting |
| Json.NodesSize | private_include/jsmn.h:68-83 | the preorder list of a value has one entry per value and per key |
| Lexemes.StringIff | private_include/jsmn.h:209-288 | on every text, told from its characters: a string lexeme is accepted up to a quote if and only if what is before it is contents (plain characters, the eight escapes, `\u` with four hexadecimal digits of either case); it is INVAL if and only if contents are followed by a backslash before another character, or by `\u` that meets one before four digits or the end; it is PART if and only if contents are followed by the end, also within an escape |
| Lexemes.PrimitiveIff | private_include/jsmn.h:145-204 | on every text: a primitive is accepted up to the first delimiter or the end if and only if only printable characters come before it, and is INVAL if and only if another character comes first |
| Lexemes.BodyEnds | private_include/jsmn.h:209-288 | the contents of every string of RFC 8259, escapes included, are skipped up to the closing quote |
| RoundTrip.LeafLexeme | private_include/jsmn.h:406-489 | an RFC 8259 string, number or literal is one lexeme with the right kind and span |
| RoundTrip.ValueRun | private_include/jsmn.h:293-511 | inside any context with a delimiter behind it, parsing a value appends exactly its preorder nodes and restores the stack |
| RoundTrip.ParsePrinted | private_include/jsmn.h:293-511 | for every JSON text and enough tokens, in either form: the code is the node count and the tokens are the preorder list with kind, span, child count (key 1, object its members, array its elements) and parent |
| ParentLinks.ApplyChains | private_include/jsmn.h:340-447 | in either form and on any text, every token created after an open bracket keeps that bracket among its ancestors |
| ParentLinks.LinksClose | private_include/jsmn.h:347-374 | following parents from the last token finds the innermost open bracket; with none open it settles on a closed root of the closer's kind as long as there is a super token |
| ParentLinks.StepIff | private_include/jsmn.h:340-447 | from equal cursors, tokens and open brackets, a lexeme gives the two forms the same code or the same cursor and token array if and only if it is neither a token with room for it while their `toksuper` differ, nor a closer with no bracket open that the parent-link form lets pass |
| ParentLinks.NeverAgain | private_include/jsmn.h:426-488 | a token created under different `toksuper` is counted by a token the other form has left for good: its child counts differ ever after |
| ParentLinks.TogetherIff | private_include/jsmn.h:293-511 | over any text and with any capacity, the two forms end with the same code, cursor and token array if and only if no lexeme on the way is one of those; then their parents are the same too |
| ParentLinks.LinksAgree | private_include/jsmn.h:347-447 | on every JSON text and with every capacity, NOMEM included, the two forms end with the same code, cursor and token array |
| ParentLinks.LinksDiverge | private_include/jsmn.h:347-394 | on `{}:}` the scanning form reports an error and the parent-link form one token |
| ParentLinks.CommaDiverges | private_include/jsmn.h:426-447 | on `a:b,c` both report three tokens, and the last is the first one's second child in one form and a root in the other |
| ParentLinks.CountsDiverge | private_include/jsmn.h:426-447 | on `{"a":[] 1}` both report four tokens, and the number is the object's second child in one form and the key's in the other |
| Commands.CopyField | source/ota_ws_update_http.c:55-56 | the buffer holds the copied text as a C string |
| Commands.JsonToStrParm | source/ota_ws_update_http.c:41-65 | on every text for which the code is defined (see below): fails exactly on fewer than two tokens, with both fields empty; otherwise the fields are the third and fifth token's text |
| Commands.CommandDecodes | source/ota_ws_update_http.c:41-65 | for every object of two members with scalar values, whatever its keys and whitespace: the code is defined exactly if both values are shorter than 64 characters, and then the fields are exactly the two values |
| Commands.SingleDecodes | source/ota_ws_update_http.c:55-63 | for every object of one member with a scalar value: the code is defined exactly if the value is shorter than 64 characters, and then it is the name, and the value is empty |
| Commands.QuotedMeans | source/ota_ws_update.html:496-504 | what the client writes for a string stands, character by character, for that string |
| Commands.StringifyIsCStr | source/ota_ws_update.html:496-504 | the client's messages contain no NUL, so the device sees all of them |
| Commands.MessageDecodes | source/ota_ws_update.html:496-504 | for every name and scalar value: the device has room exactly if both, as written, are shorter than 64 characters; it receives them as written |
| Commands.AtoiReads | source/ota_ws_update_http.c:134 | white space, a sign, digits (leading zeros or none at all included) and a rest read as the number the digits stand for, with that sign, saturated |
| Commands.PartsOf | source/ota_ws_update_http.c:134 | every text has these parts |
| Commands.NumberDecodes | source/ota_ws_update_http.c:127-134 | the client's message with any name that fits and a number up to 2^31-1: the decimal text arrives, its `atoi` is the number, and the name arrives as itself if and only if JSON writes it without escapes |
| Commands.StringDecodes | source/ota_ws_update_http.c:127-165 | likewise with a string value: both arrive as themselves if and only if neither needs escapes |
| Backends.StartIff | source/ota_ws_update_esp_preencrypted.c:36-84 | a start succeeds, with an erased partition and a fresh decoder, if and only if the partitions are found, `esp_ota_begin` succeeds and, pre-encrypted, so does `esp_encrypted_img_decrypt_start`; one that fails leaves everything as it was, or no decoder |
| Backends.WriteIff | source/ota_ws_update_esp_preencrypted.c:85-126 | a write succeeds if and only if there is a decoder with data for it, the header received so far is acceptable, the first part yields more than 288 bytes, and `esp_ota_write` succeeds; it then adds the part, and its plaintext to the partition; a failing one releases the decoder, and none makes anything bootable |
| Backends.FinishIff | source/ota_ws_update_esp_preencrypted.c:127-162 | the partition is made bootable if and only if the decoder accepts the stream, `esp_ota_end` succeeds and the boot partition can be set; otherwise nothing changes but that the decoder is released |
| Backends.WriteOk | source/ota_ws_update_esp_preencrypted.c:85-126 | every write, whatever it brings, keeps: a decoder before the first write is fresh, the header check has passed only if the decoder is past the header, and then the partition is the decryption of what the decoder was fed |
| Backends.FinishSafe | source/ota_ws_update_esp_preencrypted.c:127-162 | the boot partition is switched only to an authentic image; the early OK of `decrypt_end` is out of reach |
| Backends.AuthenticIsDecrypted | source/ota_ws_update_esp_preencrypted.c:127-162 | an authentic image below 2^32 bytes has exactly the declared length; it holds what the tool's `decrypt` makes of the bytes received if RSA recovers 32 bytes, with 16 or 24 the tool decrypts under the short key, otherwise it refuses |
| Backends.WriteAccepts | source/ota_ws_update_esp_preencrypted.c:85-126 | the next part of a good file is accepted, and the partition then holds what was decrypted of it |
| Backends.FirstWriteIff | source/ota_ws_update_esp_preencrypted.c:101-117 | the first write of a good file succeeds if and only if it yields more than the application's headers |
| Backends.CoversIff | source/ota_ws_update_http.c:15 | for chunk sizes of whole blocks that is: the smaller of file and chunk exceeds 288 bytes, or 800 with the encryption header |
| Backends.FinishAccepts | source/ota_ws_update_esp.c:94-112 | a good file taken to the end is made bootable, with its payload in the partition |
| Outcomes.RefusedIff | source/ota_ws_update_http.c:30-38 | for every state, frame and outcome of the platform's calls: the client is told of an error or a cancellation if and only if the frame was lost, its text yields no name, it names `otaCancel` or `otaError`, it announces 0 or a session that cannot be started, or it is data of a session that cannot be written or, complete, not be made bootable; it is then told just that, with the reason, `otaCancel` exactly after the cancel command, and the handler is idle, the decoder released, nothing made bootable |
| Outcomes.AcceptedOutcome | source/ota_ws_update_http.c:132-221 | what every other frame does: a size begins a fresh session and asks for the first chunk, a restart drops all but partition and boot history, a part is added and the next asked for, the last one is made bootable and the end announced, and anything else changes nothing and is not answered |
| Server.StepSafe | source/ota_ws_update_http.c:78-226 | one frame of any kind and content, with any platform call failing, keeps every bootable image authentic (plain backend: exactly what was accepted); a text for which `json_to_str_parm` is not defined may yield any fields |
| Server.BootSafety | source/ota_ws_update_http.c:78-226 | over every run from power-on, whatever frames arrive (as in `Server.StepSafe`) and calls fail: for each image ever made bootable there is a last announcement, which found the partition ready, every binary frame since was written with success, the last of them came when `esp_ota_end` and the boot switch succeed, and the image is the data of those frames: as unsigned words fewer than announced before the last, and not fewer with it; with positive sizes and frames below 2^31 exactly as many if and only if the last frame was exactly what was missing. With the plain backend the partition holds it; a pre-encrypted image has the declared length (modulo 2^32) and a matching tag, and the partition holds exactly its decryption, the tool's own if RSA recovers 32 bytes and the image is below 2^32 bytes |
| Server.BootIff | source/ota_ws_update_http.c:185-221 | one frame makes an image bootable if and only if a session is on, it is the binary frame that completes the upload, it fits, the decoder accepts the whole, and `esp_ota_write`, `esp_ota_end` and the boot switch all succeed; and the image is the upload |
| Server.UploadedSince | source/ota_ws_update_http.c:132-148 | what is uploaded is the data of the binary frames since the last announcement, if all were written |
| Server.StepTracks | source/ota_ws_update_http.c:188-221 | the size gate: a session goes on exactly as long as the bytes since the announcement, as unsigned words, are fewer than announced, and only the frame that reaches the size can make an image bootable |
| Server.BootedIsUploaded | source/ota_ws_update_http.c:185-221 | over every run from any state, what is made bootable is, told from the frames and not from the handler's state, the binary data since the last announcement of a size, complete with the last frame and not before |
| Server.Overrun | source/ota_ws_update_http.c:201-203 | for every announced n and frame of n bytes or more, two frames that boot the whole frame with the plain backend |
| Server.StepCounts | source/ota_ws_update_http.c:127-221 | idle with all counters 0, or active with `0 <= ota_start_chunk < ota_size` and `ota_start_chunk` bytes accepted since the start: a frame keeps this if and only if it is not a negative size while partitions, `esp_ota_begin` and, pre-encrypted, the decoder are available |
| Server.NegativeSize | source/ota_ws_update_http.c:132-147 | for every positive `int` n the message announcing -n is such a frame |
| Server.RunCounts | source/ota_ws_update_http.c:78-226 | the same over every sequence of frames without negative sizes |
| Server.IdleIgnoresData | source/ota_ws_update_http.c:185 | outside a session no number of binary frames changes anything |
| Outcomes.ReportsWhenIdle | source/ota_ws_update_http.c:30-38 | whoever is told of an error, a cancellation or the end is told by an idle handler; `otaEnd` is sent exactly when one image is made bootable |
| Transfer.ReceiveIs | source/ota_ws_update.html:532-577 | messages named `otaEnd`, `otaError` and `otaCancel` stop the client and no other does; only a chunk request is answered, with the file's bytes from the offset asked for, a chunk of them or what is left |
| Transfer.SubarrayIs | source/ota_ws_update.html:540 | the slice between two positions, negative ones counted from the end and others kept within the array |
| Transfer.ChunkHandled | source/ota_ws_update_http.c:188-221 | the chunk at `ota_start_chunk` advances the session by one chunk and asks for the next, or ends it with the payload bootable |
| Transfer.Turn | source/ota_ws_update.html:532-544 | in every phase but the last exactly one party can move, and its move leads to the next phase, one turn closer to the end |
| Transfer.OneInFlight | source/ota_ws_update_http.c:147-198 | at every step of every run of an active session exactly one chunk request or chunk is in flight, and its offset is `ota_start_chunk` |
| Transfer.EndToEnd | source/ota_ws_update_http.c:132-221 | every run stops after exactly 2 ceil(N/C) + 3 turns; then ceil(N/C) binary frames were handled, `otaEnd` was sent once, the partition holds the payload, and it was made bootable once |
| Transfer.CompleteRun | source/ota_ws_update.html:532-544 | from every initial state such a run, to its end, exists |
| Transfer.CeilIsCeiling | source/ota_ws_update_http.c:188-201 | the number of frames is the quotient rounded up |
| Transfer.ToolImageSuitable | source/ota_ws_update_http.c:15 | every file the tool writes from more than 288 bytes may be transferred with the announced chunk size |
| Transfer.ToolImageBoots | esp_encrypted_img/tools/esp_enc_img_gen.py:43-74 | a transfer of a file written by the tool ends with the tool's input in the partition, made bootable once |
| Transfer.ToolImageRun | esp_encrypted_img/tools/esp_enc_img_gen.py:43-74 | for every plaintext of more than 288 bytes, key, nonce and padding there is a run from power-on, with the announced chunk size, at whose end the plaintext is the one bootable image |
| Transfer.ClickStarts | source/ota_ws_update.html:494-501 | the click on an idle system starts such a run |
| Transfer.ShortKeyBoots | source/ota_ws_update_esp_preencrypted.c:127-162 | a run from power-on that boots an image with a key of 20 bytes, which the tool refuses |
| Recovery.Recovers | source/ota_ws_update_http.c:127-221 | whatever platform calls fail, and whatever the file: every run from a click ends, within the 2 ceil(N/C) + 3 turns of a transfer, with empty channels, an idle handler and a stopped client; exactly if the end was announced one image was made bootable, and it is the file; the next click begins a session as the first one did, for a suitable file one that `Transfer.EndToEnd` speaks of |
| Recovery.RefusalEnds | source/ota_ws_update.html:557-568 | once the client is being told of an error or a cancellation, one turn is left, after which both are at rest and nothing was made bootable |
| Recovery.FailingStart | source/ota_ws_update_http.c:140-145 | such a run, for every start that fails |
| Restart.ClickIs | source/ota_ws_update.html:494-508 | what the device reads of a click: the size of the file if there is one and no session is on, otherwise the cancel command |
| Restart.ClientOwes | source/ota_ws_update.html:539-543 | the queue of requests not yet served, by session, is the same before and after whatever the client does: it answers each with one chunk, in order, of whatever session |
| Restart.StaleIff | source/ota_ws_update.html:494-508 | cancel and start again in any phase of an active session, with either backend: under every schedule of the two parties, the first chunk the new session handles answers a request of an earlier one if and only if a request was still due, that is, unless the last chunk was on its way |
| Restart.StaleReached | source/ota_ws_update.html:532-544 | from every phase there is a schedule on which such a first chunk arrives |
| Restart.StaleChunk | source/ota_ws_update.html:539-543 | with the plain backend and a request for offset k > 0 due, a schedule on which the new session begins with the bytes from k on |
| Device.PlainBackend.Start | source/ota_ws_update_esp.c:23-62 | the static variables after it are those of the step function |
| Device.PlainBackend.Write | source/ota_ws_update_esp.c:63-93 | the same, with the header check on the first write only |
| Device.PlainBackend.End | source/ota_ws_update_esp.c:94-112 | the same; bootable only if both platform calls succeed |
| Device.PreEncBackend.Start | source/ota_ws_update_esp_preencrypted.c:36-84 | a new decoder handle and cleared arguments, or everything released |
| Device.PreEncBackend.Decrypt | source/ota_ws_update_esp_preencrypted.c:87-99 | unless the call is refused, the length read back from the argument record is that of this call's plaintext and the buffer holds it, although in the header the decoder leaves the record alone |
| Device.PreEncBackend.Write | source/ota_ws_update_esp_preencrypted.c:85-126 | decoder, argument record and partition change as the step function says, and every failure releases the session |
| Device.PreEncBackend.End | source/ota_ws_update_esp_preencrypted.c:127-162 | bootable only after the decoder's OK and both platform calls |
| Device.PreEncBackend.Abort | source/ota_ws_update_esp_preencrypted.c:163-182 | no handle, cleared arguments |
| Handler.OtaServer.OtaError | source/ota_ws_update_http.c:30-38 | counters zero, session aborted, one message sent |
| Handler.OtaServer.BinaryFrame | source/ota_ws_update_http.c:185-222 | state and messages of a chunk are those of the step function, with either backend |
| Handler.OtaServer.OtaWsHandler | source/ota_ws_update_http.c:78-226 | for every frame, state and messages are those of the step function, through the parser, the command buffers and either backend |
| Session.Run | source/ota_ws_update.html:494-544 | the script's and the server's own variables: started on an idle pair of objects with a suitable file, the exchange ends with both queues empty, ceil(N/C) data frames delivered, one `otaEnd`, counters 0, the script stopped, and the payload in the partition, made bootable once |

## Left out

- Ownership: releasing memory is dropping a reference. `end_ota_ws` keeps `enc_handle` and the output buffer after they were released and `abort_ota_ws` would release them again (source/ota_ws_update_esp_preencrypted.c:130, 157-168); the model makes no claim about releasing once.
- Failing allocation and failing cipher set-up; mbedTLS, RSA, PEM and random numbers by contract only.
- Commands.JsonToStrParm: requires that the text does not parse to 2 or 4 tokens, where the code reads a token that was never filled, and that the fields fit their 64-byte buffers; an empty text frame, which arrives as NULL, is excluded too.
- Commands.AtoiReads: `atoi` beyond the range of `int` is undefined in C; the model saturates, as a `strtol`-based library does.
- Jsmn.Parser.Parse: positions and counts are unbounded integers. JSMN_STRICT, and resuming after JSMN_ERROR_PART, are not modelled.
- Transfer.EndToEnd: one session, begun with empty channels, with no failing platform call (`Recovery.Recovers` has those), and a file of at most 2^31-1 bytes, the range of `ota_size`.
- Recovery.Recovers: one click and the turns after it; a second click while frames are in flight is the subject of `Restart.StaleIff`, without failing calls.
- Server.BootSafety: where `json_to_str_parm` is not defined (an empty text, 2 or 4 tokens, a field of 64 characters or more) the fields are arbitrary in the model, but the rest of the memory stays as it is.
- Handler.OtaServer.OtaWsHandler: requires a text frame for which `json_to_str_parm` is defined, as it runs it.
- Tool.ToolToDevice: for a non-empty input; `Tool.EmptyToDevice` has the empty one.
- Server.StepCounts: for binary frames shorter than 2^31 bytes, as a longer one does not fit the `int` it is passed as.
- The server's messages travel as a name and a value; printing them and `JSON.parse` in the browser are left out, as are progress display and the rest of the page.
- The handshake, `OTA_CHECK_ROLLBACK`, the rollback calls and URI registration: wrappers with one branch. `esp_restart` is the static variables becoming zero.
- The contents of the partition after a failing `esp_ota_begin` or `esp_ota_write`.
- `source/ota_ws_update_.html`, the example application, build files and key files.
