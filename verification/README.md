# Garage door controller: verified model

This project models the decision-making core of the garage door controller firmware and proves
properties of it: the MQTT status-request scanner and the payload printers, the HTTP head parser and the
streaming firmware download behind it, the update lifecycle with its boot flow, the relay and reed timing
policies, and the codecs and layout tools around them.

Most loops of the source appear twice. A `method` has the source's form (a class whose fields are updated
in place, a buffer that is filled, a loop that advances a position) and is proved to compute a
specification function or to keep an invariant; lemmas about that specification then say what the source
promises. Bytes are integers below 256. Integer widths are explicit where they matter: 32- and 64-bit
limits are checks or subset types, and the truncating casts and wrapping additions of the release build
are written out.

| Files | Subject |
|---|---|
| `Prelude`, `Utf8`, `OtaText` | shared vocabulary, UTF-8 (RFC 3629), trimming, splitting, checked decimals |
| `JsonGrammar`, `ScanSpec`, `ScanTheorems`, `StatusTheorems`, `Scanner` | the status-request scanner: grammar, specification, soundness and completeness, the scanner |
| `StatusResponse`, `Telemetry` | the payload printers, their round trip, the status branch of the telemetry task |
| `HttpHead`, `Transport`, `Session`, `UpdateTask` | from the bytes of a connection to the mark on the staged image |
| `FlashLayout`, `UpdateLifecycle`, `UpdateLoop` | the update state machine, and the device running it |
| `Door` | relay interlock, actuator loop, reed debouncer |
| `Base64`, `OtaCodecs`, `OtaUrl`, `MemoryMap`, `MemoryTerms`, `Uf2` | codecs and layout tools |

The network is an adversary. A `Link` holds the byte string its peer sends; each read delivers any number
of its next bytes, or fails; and a dishonest link reports any count and any bytes. The hash is a parameter:
a function of all bytes absorbed. Flash writes and marks may fail at any time. In `UpdateLoop` a crash may
happen between any two steps.

## What the proofs say about the code

- The code's timings are 600, 2000 and 50 ms (`core/src/door.rs:10-14`); the repository's README says 500,
  500 and 20. The model follows the code.
- The network result does not take part in the self-test verdict (`core/src/ota/selftest.rs:37-43`), so a
  network failure never reverts an image.
- Lines of a response head end at LF; one CR before it is dropped. The source's comments speak of
  CRLF CRLF.
- The line-overflow branch of `HeadParser::push` is dead: a line is never longer than the bytes counted,
  and those are checked first.
- The relay cooldown holds only because the actuator polls before it triggers: behind a pulse the
  interlock alone keeps triggers 600 ms apart, and 2600 ms exactly when it was polled once the pulse had
  elapsed (`Door.CooldownNeedsPoll`, `Door.Actuator.Handle`).
- A USB detach requested while an unconfirmed image is on trial loses track of the confirmed one. A run
  keeps the confirmed version throughout exactly when it detaches only while no other version is on trial
  (`UpdateLifecycle.KeepsThroughoutIff`).
- A boot that cannot read its state after a revert checks again, as a manual request does, so an image that
  crashes on every trial is swapped in once more each time. `UpdateLoop.SwapsBounded` counts both and
  `UpdateLoop.SwapBoundReached` reaches the bound for every pair of counts.
- A text answer cut off inside its body is taken for the shorter text (`UpdateTask.CutTextTaken`), so a
  published version may be read as another one (`UpdateTask.CutVersion`). Its digest and image are then
  asked for under that other name.
- The memory-map checks add in 32 bits and have no lower bound. What passes them is a good layout exactly
  when no region end overflows and the lowest region starts in the flash (`MemoryMap.ValidateIff`); both
  can fail (`MemoryMap.OverflowPasses`, `MemoryMap.BelowFlashPasses`). This is the release build, where
  `overflow-checks` is off; the dev profile panics on such an addition.

## Model

| member | source | states |
|---|---|---|
| Scanner.ParseStatusRequest | core/src/mqtt.rs:48-108 | the top-level loop over a position advanced in place terminates inside the payload and answers what the specification `StatusRequest` says, error kinds included |
| Scanner.Scanner.SkipWhitespace | core/src/mqtt.rs:221-225 | ends at the first byte that is not whitespace |
| Scanner.Scanner.ParseStringRaw | core/src/mqtt.rs:227-255 | returns the raw body up to the closing quote when its escapes are well formed and it is UTF-8, and fails otherwise |
| Scanner.Scanner.ParseAnyValue | core/src/mqtt.rs:257-285 | reads one value of any kind to exactly where the grammar's parse ends, with a decreasing measure through the mutual recursion |
| Scanner.Scanner.ReadMember | core/src/mqtt.rs:66-86 | reads key, colon and value with the whitespace around them |
| Scanner.Scanner.SkipObject | core/src/mqtt.rs:287-319 | skips a nested object to its closing brace or fails as the grammar does |
| Scanner.Scanner.SkipArray | core/src/mqtt.rs:321-341 | skips an array to its closing bracket or fails as the grammar does |
| Scanner.Scanner.SkipLiteral | core/src/mqtt.rs:343-351 | reads exactly one of true, false, null |
| Scanner.Scanner.SkipNumber | core/src/mqtt.rs:353-376 | reads sign, digits, fraction and exponent as far as they go; leading zeros allowed |
| Scanner.Scanner.SkipDigitRun | core/src/mqtt.rs:378-384 | ends behind the last digit and says whether there was one |
| ScanTheorems.SoundValue | core/src/mqtt.rs:257-384 | soundness: whatever value is read is a derivation of the JSON grammar that spells exactly the bytes read |
| ScanTheorems.CompleteValue | core/src/mqtt.rs:257-384 | completeness: every derivation whose text stands at the position is the one read, given that the next byte does not continue a number (the follow set) |
| ScanTheorems.CompleteNumber | core/src/mqtt.rs:353-384 | greedy number reading finds the whole number, with or without fraction and exponent |
| ScanTheorems.ValueSpells | core/src/mqtt.rs:257-384 | the position-by-position reading of a tree is its text standing at that position |
| StatusTheorems.DocumentIff | core/src/mqtt.rs:48-108 | a payload has at most one document tree, and the scan finds it |
| StatusTheorems.AcceptedIff | core/src/mqtt.rs:48-108 | accepted with u exactly when the payload is one object document, possibly inside whitespace, whose first top-level `uuid` member is a non-empty string with raw body u; nested keys never count |
| StatusTheorems.EmptyUuidIff | core/src/mqtt.rs:103-104 | the empty-uuid error is answered exactly for a document whose first `uuid` is the empty string |
| StatusTheorems.MissingUuidIff | core/src/mqtt.rs:106 | the missing-uuid error is answered exactly for a document without a top-level `uuid` |
| StatusTheorems.NotObjectIff | core/src/mqtt.rs:54-57 | the not-an-object error is answered exactly when the first byte behind whitespace is no brace |
| StatusTheorems.NotStringIff | core/src/mqtt.rs:79-84 | the not-a-string error is answered exactly when well-formed members up to a first `uuid` with another value stand behind the brace, whatever follows |
| JsonGrammar.FirstIff | core/src/mqtt.rs:79-83 | the value looked up for a key is that of the one member with the key that no other with the key stands before |
| JsonGrammar.Spelling | core/src/mqtt.rs:144-146 | whitespace, escapes, exponent marks, signs and literals are the characters RFC 8259 spells |
| Utf8.ValidIffEncoding | core/src/mqtt.rs:234-235 | the byte syntax accepts exactly the encodings of sequences of Unicode scalar values |
| Utf8.DecodeEncode | core/src/mqtt.rs:234-235 | the encoding of any scalar values (section 3 of RFC 3629) is valid and decodes to them |
| Utf8.ValidConcat | core/src/mqtt.rs:192-194 | behind a valid prefix, the whole is valid exactly when the rest is |
| StatusResponse.Write | core/src/mqtt.rs:157-166 | appends a piece when it fits and otherwise writes nothing; the bytes behind it stay |
| StatusResponse.ReversedDigits | core/src/mqtt.rs:170-181 | the digit loop stores the decimal digits last first, at most ten of them |
| StatusResponse.WriteU32 | core/src/mqtt.rs:169-190 | writes the canonical decimal digits, or a prefix of them when the buffer ends |
| StatusResponse.Finish | core/src/mqtt.rs:192-194 | returns the written bytes exactly when they are the UTF-8 encoding of some Unicode text |
| StatusResponse.FormatOnchange | core/src/mqtt.rs:111-118 | succeeds exactly when the state notification fits, and writes it and nothing else |
| StatusResponse.OnchangeReads | core/src/mqtt.rs:110-118 | the notification is one document whose one member `open` is true exactly for an open door |
| StatusResponse.FormatStatusResponse | core/src/mqtt.rs:127-142 | succeeds exactly when the response fits, and writes it and nothing else; otherwise the buffer holds a prefix of it |
| StatusResponse.ResponseSize | core/src/mqtt.rs:127-142 | a response has 41 bytes and those of uuid, flag and digits; at most 120 for a uuid of 64 |
| StatusResponse.AcceptedIsBody | core/src/mqtt.rs:48-108 | an accepted uuid is not empty, has well-formed escapes and is UTF-8 |
| StatusResponse.RoundTrip | core/src/mqtt.rs:120-142 | the response to any accepted request is accepted with the identical uuid, and in its `result` object `open` is the literal true exactly for an open door and `version` the number |
| StatusResponse.Spelling | core/src/mqtt.rs:112-140 | the fixed parts of both payloads, spelled out |
| Telemetry.Classify | app/src/telemetry.rs:91-121 | trigger and reset by topic; a status request exactly when its uuid is accepted and at most 64 bytes, with that uuid copied |
| Telemetry.Answer | app/src/telemetry.rs:304-336 | answers with the response exactly when the stored uuid is UTF-8 and the response fits 160 bytes |
| Telemetry.Serve | app/src/telemetry.rs:304-336 | every accepted request with a uuid of at most 64 bytes is answered, open exactly when the state known is open: both error branches of the answer are dead |
| HttpHead.ParseStatus | core/src/ota/http.rs:173-197 | accepts exactly HTTP/1.0 or 1.1 lines of three or more tokens with a decimal code that fits 16 bits, and returns its value |
| HttpHead.ParseHeader | core/src/ota/http.rs:199-229 | accepts exactly lines with a colon whose content length, if any, is a decimal that fits 64 bits, and returns its value |
| HttpHead.StatusIff | core/src/ota/http.rs:173-197 | accepted with a status exactly: the version and a space, a decimal code of that value, a space, and a reason that is not blank |
| HttpHead.HeadParser.Push | core/src/ota/http.rs:112-171 | after any bytes the event is that of the definition over the whole byte string; the line buffer is never full; the count at the deciding byte is the number of bytes |
| HttpHead.HeadParser.Finish | core/src/ota/http.rs:231-243 | the verdict of the blank line: transfer encoding, status, missing length, in that order |
| HttpHead.ScanSnoc | core/src/ota/http.rs:112-171 | one more byte takes the whole-string definition one step: the incremental parser refines it |
| HttpHead.Sticky | core/src/ota/http.rs:112-171 | from the first terminal event on, neither event nor count ever changes |
| HttpHead.CompleteIff | core/src/ota/http.rs:112-260 | a head is accepted with n bytes exactly when they are at most 2048 and are lines with its meaning: a status line in the form above, fields without transfer encoding and with at most one content length of that exact value, a blank line; status 2xx or 404, and no length only for 404 (section 8.6 of RFC 9110, section 6.3 of RFC 9112) |
| HttpHead.RejectIff | core/src/ota/http.rs:112-260 | each kind of rejection is given exactly by lines within 2048 bytes of which the last is the first that is not acceptable, for that reason |
| HttpHead.OversizedIff | core/src/ota/http.rs:117-120 | a head is too long exactly when its first 2048 bytes decide nothing and another byte follows |
| HttpHead.FieldReads | core/src/ota/http.rs:199-229 | a line is read as the trimmed name before its first colon and the trimmed value behind it, the name in any case; it is malformed exactly without a colon or with a content length that is no 64-bit decimal |
| HttpHead.OrdinaryAccepted | core/src/ota/http.rs:112-260 | an ordinary head with status, reason, content length and either line end is accepted with its status and length |
| HttpHead.Spelling | core/src/ota/http.rs:173-212 | version prefixes and field names, spelled out; letters are compared ignoring case |
| OtaText.TrimAscii | core/src/ota/mod.rs:244-254 | the two loops compute the trimmed text |
| OtaText.TrimIff | core/src/ota/mod.rs:244-254 | the trimmed text is the one text that starts and ends without whitespace and has only whitespace around it |
| OtaText.CheckedDecimal | core/src/ota/http.rs:189-196 | the checked loop returns the exact decimal value unless a byte is no digit or the limit is exceeded |
| Transport.Pump | app/src/ota/transport.rs:245-264 | one read and its bytes: parser, buffer and link together still hold the stream |
| Transport.Get | app/src/ota/transport.rs:229-265 | for every way reads are cut: on success what was read past the head and what the link still delivers are the bytes behind the head; without failures the result depends on the stream alone |
| Session.HttpBody.Read | app/src/ota/transport.rs:281-293 | replays the leftover and then the link, losing and repeating nothing; 0 bytes only at the end |
| Session.ReadSmall | app/src/ota/transport.rs:204-225 | returns a prefix of the body of at most the declared length, and without failures all of it that exists; too large a length is refused |
| Session.StreamChunk | core/src/ota/session.rs:71-90 | one turn of the loop: the bytes read are those hashed and those written, at this offset |
| Session.StreamBody | core/src/ota/session.rs:69-91 | the loop terminates against any reader; what was handed out was written contiguously from offset 0 |
| Session.ApplyUpdate | core/src/ota/session.rs:51-103 | the mark is tried at most once, exactly when the length fits, exactly that many contiguous bytes were written and their hash is the expected one; an oversize image touches nothing; no read asks past the length; without failures the result is what the stream deserves |
| Session.RanNext | core/src/ota/session.rs:69-91 | every turn keeps the relation between bytes handed out, writes, memory and what is still to come |
| Session.FetchImage | app/src/ota/task.rs:159-203 | for every byte stream and chunking the slot starts with a prefix of the declared body, written from offset 0 on, and while nothing failed the rest of it is untouched; with the mark it holds all of the body and the digest matches; without failures the result depends on the stream alone |
| Session.MarkedIff | app/src/ota/task.rs:176-203 | an answer deserves the mark exactly when its head is a 200 with a length that fits, the whole body is there, and its hash is the expected one |
| Session.NotAppliedIff | core/src/ota/session.rs:57-99 | too large, too short and wrong digest are each deserved exactly by that fault of the declared body |
| Session.NoImageIff | app/src/ota/task.rs:172-180 | another status, an early end and each rejected head are answered as such; a 200 without a length never passes the head parser |
| UpdateTask.FetchText | app/src/ota/task.rs:88-105 | a text answer: absent, refused or its declared prefix, independent of chunking when nothing fails |
| UpdateTask.TextIff | app/src/ota/task.rs:88-105 | absent exactly for another status, refused exactly for a declared length above the limit, and else the declared body or what there is of it |
| UpdateTask.TextWholeIff | app/src/ota/transport.rs:204-225 | the text taken is the whole declared body exactly when that many bytes stand behind the head; else it is what there is |
| UpdateTask.CutTextTaken | app/src/ota/transport.rs:217-224 | an answer cut anywhere inside its declared body is accepted with the bytes before the cut |
| UpdateTask.CutVersion | app/src/ota/task.rs:96-109 | every version of two digits or more reads as another one without its last digit |
| UpdateTask.CheckAndUpdate | app/src/ota/task.rs:61-203 | one whole check: flash is written only behind a published version that differs and a readable digest; the mark is made only with the whole declared image in the slot and the published digest; without failures the three answers decide the result |
| UpdateTask.UpdatedIff | app/src/ota/task.rs:61-203 | without failures a new image is marked exactly when the published version is another one, older or newer, its digest reads, and the image is good |
| UpdateTask.NotUpdatedIff | app/src/ota/task.rs:92-156 | up to date, not published, unreadable version and unreadable digest are each told by the answers |
| UpdateTask.OneResult | app/src/ota/task.rs:61-203 | the three answers deserve one result only |
| UpdateTask.RunCheck | app/src/ota/task.rs:50-56 | one check marks exactly once when an update is due, and else never |
| UpdateLifecycle.UpdateStateMachine.StageFirmware | core/src/flash.rs:309-315 | stages exactly the images that fit the active slot |
| UpdateLifecycle.UpdateStateMachine.MarkUpdated | core/src/flash.rs:318-327 | refuses without a staged image and during a trial; else the swap is pending |
| UpdateLifecycle.UpdateStateMachine.MarkBooted | core/src/flash.rs:330-343 | confirms except with a swap pending or detached |
| UpdateLifecycle.UpdateStateMachine.OnReset | core/src/flash.rs:351-379 | swaps, rolls back, boots or enters USB, each in exactly its state; says which version runs and which is kept; neither `expect` can fail |
| UpdateLifecycle.Run | core/src/flash.rs:309-379 | in every run of any operations, `mark_dfu` included, the versions a reset needs are there |
| UpdateLifecycle.SafeRollback | core/src/flash.rs:309-379 | in every run that detaches only while no other version is on trial, the last confirmed version is active, or saved while another is on trial |
| UpdateLifecycle.KeepsThroughoutIff | core/src/flash.rs:309-379 | a run keeps the confirmed version at every moment exactly when each of its detaches finds no other version on trial |
| UpdateLifecycle.TwoResetsRecover | core/src/flash.rs:351-379 | behind any run, two unconfirmed resets bring the last confirmed version back exactly when it is still kept |
| UpdateLifecycle.DetachKeepsIff | core/src/flash.rs:346-348 | at any moment that keeps it, one detach keeps it exactly when no other version is on trial |
| UpdateLifecycle.DetachedTrialLosesConfirmed | core/src/flash.rs:318-379 | after a detached trial, staging, marking and resetting can lose the confirmed version for good |
| UpdateLoop.InvRun | app/src/main.rs:69-154 | every run of the composed system, with crashes anywhere, keeps the invariant that bounds swaps and rollbacks |
| UpdateLoop.ConfirmedHealthy | app/src/main.rs:84-154 | in every run an image is confirmed only when the last hardware check since the last reset passed |
| UpdateLoop.HealthyConfirms | core/src/ota/selftest.rs:37-43 | a trial image whose hardware is well is confirmed, with network or without |
| UpdateLoop.UnhealthyRollsBack | app/src/main.rs:90-103 | any other hardware answer leaves it hung, and the reset brings the saved version back |
| UpdateLoop.HungStays | app/src/main.rs:102 | a hung image does nothing until the reset |
| UpdateLoop.BootChecks | app/src/ota/task.rs:34-48 | a boot is followed by a check unless the image was reverted |
| UpdateLoop.CheckFetches | app/src/ota/task.rs:112-119 | a check fetches exactly for another version; a waiting request starts exactly one check |
| UpdateLoop.UpdateInstalls | app/src/ota/task.rs:61-203 | a good update is swapped in and confirmed, with network or without |
| UpdateLoop.SwapsBounded | app/src/ota/task.rs:34-48 | in every run: no swap when the device started with the published version; otherwise at most one and one more for each manual request and each misread boot after a revert; rollbacks never exceed swaps |
| UpdateLoop.PublishedIsFinal | core/src/ota/mod.rs:38-44 | once the published version is confirmed no further swap happens, whatever is requested, misread or interrupted |
| UpdateLoop.RevertIsFinal | app/src/main.rs:74-82 | a reverted image with no check ahead keeps running, without a swap, until the next request or misread boot, whatever happened before |
| UpdateLoop.UndisturbedRevert | app/src/main.rs:74-82 | without any request or misread a reverted image has no check ahead |
| UpdateLoop.SwapBoundReached | app/src/ota/task.rs:34-48 | for every number of requests and of misread boots a run reaches the bound |
| UpdateLoop.MisreadsLoop | app/src/main.rs:71-73 | so misread boots alone swap without end, without any request |
| UpdateLoop.OpsAreRun | app/src/ota/task.rs:61-203 | the device's steps are a run of the state machine without a detach |
| UpdateLoop.TwoCrashesRecover | core/src/flash.rs:351-379 | two crashes at any moment of any run bring the last confirmed version back |
| Door.RelayInterlock.Trigger | core/src/door.rs:77-89 | accepts exactly when neither deadline is ahead, and says why not otherwise |
| Door.RelayInterlock.Poll | core/src/door.rs:96-105 | ends an elapsed pulse once and arms the cooldown from its scheduled end |
| Door.CooldownNeedsPoll | core/src/door.rs:77-105 | for every pulse, poll and later time: accepted exactly 600 ms behind the pulse without a poll, and exactly 2600 ms behind it with a poll once the pulse had elapsed |
| Door.Actuator.Handle | app/src/actuator.rs:39-71 | one turn of the loop: a trigger is accepted exactly when the last accepted one is 2600 ms old; the relay is low again; a rejection carries its exact reason |
| Door.Actuate | app/src/actuator.rs:30-73 | over any commands and any monotone clock the loop pulses exactly at the accepted times |
| Door.AcceptedNext | app/src/actuator.rs:40-46 | a command is accepted exactly when it is a trigger at least 2600 ms behind every accepted one |
| Door.Rejection | core/src/door.rs:78-85 | the pulse is named exactly while it is on; otherwise the remaining time is positive, at most 2000 ms, exact to the millisecond and never truncated |
| Door.Spacing | app/src/actuator.rs:30-73 | accepted triggers i and j are at least (j - i) times 2600 ms apart |
| Door.WindowBound | app/src/actuator.rs:30-73 | any window of w ms holds at most w / 2600 + 1 pulses |
| Door.ReedDebouncer.Update | core/src/door.rs:153-181 | emits exactly when the history commits, and Closed exactly for a closed reed; the pending candidate is never the committed state |
| Door.HeldLevel | core/src/door.rs:148-181 | a reed held at a level for 50 ms makes that the door state, closed for closed |
| Door.CommitsIff | core/src/door.rs:148-181 | the history commits exactly when the maximal run of disagreeing samples at its end has two samples or more and spans 50 ms |
| Door.EmissionsAlternate | core/src/door.rs:148-181 | emissions alternate and are at least 50 ms apart |
| Base64.Fill | core/src/ota/mod.rs:212-241 | fails exactly when 4 times ceil(n / 3) bytes do not fit; otherwise writes exactly the encoding and nothing else |
| Base64.DecodeEncode | core/src/ota/mod.rs:212-241 | a strict decoder (section 4 of RFC 4648) returns the input for every length |
| Base64.Spelling | core/src/ota/mod.rs:210 | the symbols are the standard alphabet, letter by letter |
| Base64.BasicAuthorization | core/src/ota/mod.rs:193-208 | fails exactly for empty credentials or a short buffer; otherwise writes the scheme and the encoded credentials |
| Base64.HeaderDecodes | core/src/ota/mod.rs:193-208 | the header decodes to user, colon, password (section 2 of RFC 7617) |
| Base64.HeaderInjective | core/src/ota/mod.rs:193-208 | users without a colon: equal headers, equal credentials |
| OtaCodecs.ParseVersion | core/src/ota/mod.rs:145-155 | the loop computes the version the text denotes |
| OtaCodecs.VersionIff | core/src/ota/mod.rs:145-155 | a text denotes v exactly when it is digits of value v with only ASCII whitespace around them |
| OtaCodecs.PrintedVersion | core/src/mqtt.rs:169-190 | parsing inverts printing for every 32-bit version under any surrounding whitespace |
| OtaCodecs.ParseSha256Hex | core/src/ota/mod.rs:159-171 | returns a digest exactly when the trimmed body is its lowercase hexadecimal form |
| OtaCodecs.HexInjective | core/src/ota/mod.rs:159-179 | different byte strings print differently |
| OtaUrl.BuildPath | core/src/ota/mod.rs:97-115 | succeeds exactly when every segment is valid and the joined path fits 192 bytes, and returns that path |
| OtaUrl.ParseUrl | core/src/ota/mod.rs:83-117 | decides scheme, project, authority and path in the source's order |
| OtaUrl.PiecesOfJoin | core/src/ota/mod.rs:97-115 | splitting a joined path gives its segments back |
| OtaUrl.UrlIff | core/src/ota/mod.rs:83-142 | accepted for a target exactly: scheme, host, perhaps a port with or without a plus sign, and a prefix of valid segments that denote it, its path within 192 bytes |
| OtaUrl.UrlErrors | core/src/ota/mod.rs:84-92 | the scheme error is answered exactly without `http://` or `https://` in front, the project error exactly behind it for a project that is no segment |
| OtaUrl.RestErrors | core/src/ota/mod.rs:93-134 | port, host and path errors are each told by the text behind the scheme |
| OtaUrl.CanonicalRoundTrip | core/src/ota/mod.rs:83-142 | an accepted URL's path is its valid prefix segments and the project, each behind a slash; printing it with everything explicit and parsing again gives the same target |
| MemoryMap.StripComments | bootloader/build.rs:216-240 | the loops compute the three-mode definition of stripping |
| MemoryMap.BlockCommentGoes | bootloader/build.rs:220-227 | a block comment goes up to its first end, and the text around it stays |
| MemoryMap.LineCommentGoes | bootloader/build.rs:228-234 | a line comment goes, its line feed and the text around it stay |
| MemoryMap.OpenCommentGoes | bootloader/build.rs:220-234 | a comment that does not end takes the rest of the text |
| MemoryMap.StrippedHasNoComment | bootloader/build.rs:216-240 | no comment opener is left |
| MemoryMap.StripIdempotent | bootloader/build.rs:216-240 | a text is unchanged exactly when it has no comment opener; stripping twice is stripping once |
| MemoryMap.ValidateWithinFlash | bootloader/build.rs:60-70 | passes exactly when every 32-bit end is at most the flash end |
| MemoryMap.ValidateNoOverlap | bootloader/build.rs:110-123 | passes exactly when neighbours in the order of origins fit |
| MemoryMap.FitIsDisjoint | bootloader/build.rs:110-123 | the neighbour check makes all five regions pairwise disjoint when no end overflows |
| MemoryMap.ValidateIff | bootloader/build.rs:60-123 | what passes is a good layout (disjoint, inside the flash, page aligned, DFU behind ACTIVE and one page longer) exactly when no end overflows and the lowest origin is in the flash; every good layout without empty regions passes |
| MemoryMap.OverflowPasses | bootloader/build.rs:60-70 | a region whose end overflows passes and covers the others |
| MemoryMap.BelowFlashPasses | bootloader/build.rs:60-70 | a layout with a region below the flash passes: the second condition can fail |
| MemoryTerms.EvalExpr | bootloader/build.rs:177-194 | the loop computes the evaluation of the expression |
| MemoryTerms.EvalPrinted | bootloader/build.rs:177-194 | any printed list of signed terms, with any blanks, evaluates to the low 32 bits of its sum, whatever wraps on the way |
| MemoryTerms.BadTermFails | bootloader/build.rs:177-214 | an expression with a term that does not read fails, whatever good terms stand in front of it and whatever follows |
| MemoryTerms.DecimalTerm | bootloader/build.rs:196-214 | a printed decimal reads as itself, times 1024 with K or k and times 1048576 with M or m behind it |
| MemoryTerms.HexTerm | bootloader/build.rs:196-214 | so does a printed hexadecimal behind `0x` or `0X` |
| Uf2.BuildImage | scripts/make_uf2.py:34-43 | slice assignments over a zeroed buffer give the image where the last placement wins |
| Uf2.PlacementFound | scripts/make_uf2.py:40-43 | a byte that no later placement covers is the placement's |
| Uf2.FileVerbatim | scripts/make_uf2.py:40-43 | a file that no later one overlaps stands verbatim at its offset |
| Uf2.GapIsZero | scripts/make_uf2.py:39-43 | bytes no placement covers are zero |
| Uf2.UnpackInverts | scripts/make_uf2.py:76-88 | reading the blocks back accepts every one, with its magic numbers, flags, family, consecutive address and number, and concatenates their payloads to the image |
| Uf2.Build | scripts/make_uf2.py:32-57 | packs exactly the image into numbered blocks that unpack to it; fails exactly when a header field does not fit its word |

## Left out

- DNS, TCP, TLS and timeouts: a `Link` delivers, stops or fails in any way; opening a connection is not modelled.
- Request building (`build_request`, `TextBuf`): the peer's answer does not depend on the request here.
- embassy-boot's page swap and `FirmwareUpdater`: `UpdateStateMachine` stands for them, and a mark of the real updater may fail.
- SHA-256: any function of the bytes absorbed.
- The traits `Flasher` and `BodyReader` are one class each, whose methods may fail or misbehave in every way the caller has to expect.
- Error code strings, LED blink codes, Wi-Fi and reconnect counters, watchdog, heap and radio set-up, `parse_broker`, `parse_u32`: easy members.
- Partition constants and lookups other than the slot sizes, and the page-erase loop.
- Real-time bounds on the pulse width and on task latency: only a monotone clock is used.
- The scanner's stack depth on deeply nested payloads.
- `parse_memory_x`, `value_after`, the partition-presence and linker-symbol checks: text searches over the stripped map.
- White space outside ASCII in `str::trim`, and multi-byte characters in the memory map: texts there are bytes.
- The UF2 command line, its file reading, and negative offsets.
- `deploy.sh`, secrets and configuration.
- Door.RelayInterlock.Trigger: stated for readings of the millisecond clock, which a 64-bit microsecond count bounds; near the end of 64 bits the source's additions overflow.
- Door.Actuate: takes the commands as a list; the channel of capacity 4 in front of the loop is not modelled.
- Scanner.Scanner.ReadMember: the lines are written twice in the source, once in each member loop.
- Base64.Fill: takes the input as a sequence instead of a closure, and says nothing of the buffer behind the start when it fails; symbols are computed by ranges instead of looked up (`Base64.Spelling` gives the table).
- Session.FetchImage: assumes a reader that keeps its contract; `Session.ApplyUpdate` does not.
- UpdateTask.CheckAndUpdate: resolving the host and opening the three connections are taken to have succeeded.
- OtaUrl.ParseUrl: texts are bytes, so a URL with characters outside ASCII is rejected byte by byte.
