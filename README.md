# termdetect, modelled in Dafny

termdetect finds out which terminal emulator a program runs in. The
constructor of `info_impl` sends up to six queries to the terminal:

- DA1, DA2 and DA3, the Device Attributes requests;
- the XTVERSION request `CSI > q` ("Q" below);
- the `DCS + q` request for the `TN` capability ("TN" below);
- `OSC 702`, which only rxvt answers.

Which query comes next depends on the replies already received. The
constructor then parses the replies and decides:

- the implementation, as the first rule of a fixed priority chain;
- its version;
- the DEC emulation level;
- the feature set.

This project models that core. The terminal is a fixed **oracle**: for
each query it answers with data, times out, refuses the write or the read,
or refuses raw mode.

## Modules

- `Terminal` (terminal.dfy): the enums `implementations`, `emulations`
  and `features`, and the six probe kinds.
- `Text` (text.dfy):
  - `std::from_chars` into a 32-bit `unsigned`, where overflow is a failure;
  - `std::format("{}")`, a decimal renderer that is proved to read back;
  - hex rendering;
  - `isprint`, as printable ASCII 0x20..0x7e.
- `Tables` (tables.dfy):
  - the wire prefixes and suffixes;
  - `known_emulations`, kept in table order, and its first-match scan;
  - `known_features`.
- `Channel` (channel.dfy): `make_request` as a function of the oracle
  answer, `Exchange`. It covers the stored reply, the "failed" result, the
  4096-byte read and the stripping of the prefix and suffix. A method
  proves the byte-copy loop against it.
- `Replies` (replies.dfy): `parse_da1`, `parse_da2` and the TN fix-up as
  functions, with lemmas about table order, field decoding, the merge rule
  and dotted versions.
- `Session` (session.dfy): a snapshot `State` of all fields, the `is_*`
  predicates, each request as a state step, the three blocks of the probe
  schedule, the `TERM` guard, the priority chain, version scaling and
  formatting, the Alacritty fix-up, the forced features, and whole runs
  for st, Emacs Term and Eterm.
- `Names` (names.dfy):
  - `implementation_name`, `emulation_name` and `feature_name`;
  - the escaping of the DA2 tail;
  - `get_default_request_delay`;
  - the `raw` line.
- `TermDetect` (info.dfy): class `Info`, with the fields of `info` and
  `info_impl` plus the terminal descriptor. The constructor, each
  `make_*_request`, `parse_da1`/`parse_da2` and their loops, the schedule
  blocks, the classifier, `close()`, `get_fd()` and the destructor are
  methods that update the fields in place. Each method is proved to move
  `Snapshot()` exactly as the matching `Session` or `Replies` function
  says.

## Behaviour worth noting

- **The DA2 merge.** In `parse_da2` (termdetect.cc:324-339), a second
  field is merged into the version when `vn < 10000` and `0 < vn2 < 100`.
  So `"65;95;1"` merges to `vn = 9501` with an empty tail
  (`Replies.Da2Example`; the general rule is `Replies.Da2MergeRule`).
- **The unknown implementation.** The `switch` in `implementation_name`
  (termdetect.cc:725-773) has a case for every enumerator and renders
  `unknown` as "unknown". Its default branch (termdetect.cc:774-780),
  which would print the DA3 bytes, cannot be reached
  (`Names.ImplementationName`).
- **Dotted versions.** After a dotted DA2 version (termdetect.cc:306-320),
  only a rest of exactly ";0" returns early. Any other rest goes on to
  the tail step (`Replies.Da2VersionDotted`).
- **Emacs Term.** The comment at termdetect.cc:556-557 says requests
  other than DA1 and DA2 must be avoided for Eterm and Emacs Term. But
  the schedule's guard (termdetect.cc:574) excludes only Eterm, so
  probing Emacs Term goes on: Q, TN and DA3 are each sent twice
  (termdetect.cc:558-609, `Session.EmacsTermRun`).

## Model

| member | source | states |
|---|---|---|
| Terminal.ImplementationOrdinal | termdetect.hh:15-32 | the underlying value of an implementation is 0 exactly for `unknown` |
| Terminal.ImplementationOrdinalInjective | termdetect.hh:15-32 | different implementations have different underlying values |
| Terminal.EmulationOrdinal | termdetect.hh:35-54 | the underlying value of an emulation is 0 exactly for `unknown` |
| Terminal.EmulationOrdinalInjective | termdetect.hh:35-54 | different emulations have different underlying values |
| Text.Wrap | termdetect.cc:660-666 | 32-bit unsigned wrap-around: the result fits in 32 bits and equals its argument when that fits |
| Text.FromChars | termdetect.cc:258-259 | `from_chars` takes the longest digit run; it succeeds iff there is at least one digit and the value fits in 32 bits, and the value is then that run's decimal value |
| Text.IndexOf | termdetect.cc:304-305 | the position of the first ';' at or after `from`, or the end when there is none |
| Text.Decimal | termdetect.cc:673-677 | `format("{}")` is a non-empty digit string, one digit exactly for numbers below 10 |
| Text.DecimalRoundTrip | termdetect.cc:673-677 | reading a rendered number back gives the number |
| Text.FromCharsDecimal | termdetect.cc:306 | `from_chars` on a rendered number followed by a non-digit returns that number and stops after it |
| Text.FromCharsDigits | termdetect.cc:258-259 | `from_chars` on a digit string that fits in 32 bits and is followed by a non-digit returns its value and stops after it |
| Text.Hex02 | termdetect.cc:853 | `{:02x}` of a byte is two characters |
| Text.Hex02RoundTrip | termdetect.cc:853 | the two hex digits of a byte read back as the byte |
| Tables.Request | termdetect.cc:76-106 | each query's request bytes start with ESC and are at least three bytes long |
| Tables.ReplyPrefix | termdetect.cc:76-106 | each reply prefix starts with ESC and is at least two bytes long |
| Tables.ReplySuffix | termdetect.cc:76-106 | each reply suffix is non-empty |
| Tables.WireFormatDistinct | termdetect.cc:76-106 | different queries send different bytes and expect different reply prefixes |
| Tables.FirstEmulation | termdetect.cc:241-254 | the scan of `known_emulations` yields the first matching entry in table order, or the table length when none matches |
| Tables.FirstEmulationIs | termdetect.cc:109-131 | the scan yields entry k iff k matches and no earlier entry does |
| Tables.Vt220Scan | termdetect.cc:109-131 | a reply starting "62;" is taken by entry 14, VT220: no earlier prefix matches it |
| Tables.Vt525Scan | termdetect.cc:109-131 | a reply starting "65;" is taken by entry 17, VT525 |
| Tables.EmulationPrefixesNonEmpty | termdetect.cc:109-131 | every table prefix has two or three characters |
| Channel.Strip | termdetect.cc:216-220 | a stored reply is never longer than the raw one (with `StripFrame` and `StripChanged` giving exactly when it changes) |
| Channel.StripFrame | termdetect.cc:216-220 | stripping a non-empty payload framed by a prefix and a suffix gives the payload back |
| Channel.StripKeepsEmptyFrame | termdetect.cc:218 | a reply that is exactly prefix plus suffix is kept verbatim, because the length test is strict |
| Channel.StripChanged | termdetect.cc:218-219 | when stripping changes a reply, the reply was the frame of a non-empty payload |
| Channel.Chunk | termdetect.cc:201-208 | one read copies at most 4096 bytes, taken from the start of what the terminal sent |
| Channel.Exchange | termdetect.cc:181-223 | "failed" holds iff raw mode was granted and no data was read; a timeout stores "<NO REPLY>"; a refused mode, write or read keeps the prior value; data stores the stripped chunk, at most 4096 bytes |
| Channel.ExchangeShorter | termdetect.cc:216-220 | a stored reply is never longer than what was read |
| Channel.MakeRequest | termdetect.cc:181-223 | the `push_back` copy loop and the strip compute `Exchange` |
| Replies.Da1LeadFirstMatch | termdetect.cc:241-254 | the first table entry that matches decides; a full prefix is removed and overrides an unknown or VT100 emulation; a bare id consumes the reply and overrides only an unknown emulation |
| Replies.Da1LeadNoMatch | termdetect.cc:241-254 | a reply no entry matches keeps the emulation and is decoded whole |
| Replies.TrimSemicolon | termdetect.cc:270-271 | exactly one trailing ';' is removed, when present |
| Replies.ParseDa1 | termdetect.cc:234-272 | the features only grow, and the emulation changes only from unknown or VT100 (with `Da1WellFormed` and `Da1CodesByFields` giving the exact result) |
| Replies.ParseDa1Steps | termdetect.cc:234-272 | `parse_da1` is the prefix step, then the feature loop, then the trim |
| Replies.FirstFieldConversion | termdetect.cc:258-262 | the loop's test (conversion ok and ending at ';' or the end) holds iff the first field is a valid 32-bit number, whose value is then the converted value |
| Replies.SplitJoin | termdetect.cc:256-268 | the fields of a ';'-joined list of separator-free fields are that list |
| Replies.Da1CodesByFields | termdetect.cc:256-268 | the cursor loop equals decoding the ';'-separated fields one by one |
| Replies.DecodeFieldsKeeps | termdetect.cc:256-268 | the loop only adds features and only appends to the unknown codes |
| Replies.Da1StopsAtMalformed | termdetect.cc:259-260 | a malformed first field ends the loop and changes nothing |
| Replies.DecodeValidFields | termdetect.cc:263-266 | on valid fields, every known code becomes a feature and every unknown field is appended verbatim |
| Replies.UnknownTextTrimmed | termdetect.cc:266-271 | after the trim, the unknown codes are the unknown fields joined by ';' |
| Replies.Da1WellFormed | termdetect.cc:234-272 | on a well-formed feature list, the result is the table emulation, the prior features plus the known codes, and the unknown codes joined by ';' |
| Replies.Da1CodesWellFormed | termdetect.cc:256-268 | on a ';'-joined list of valid fields, the loop adds exactly the known codes and appends exactly the unknown fields |
| Replies.Da1Example | termdetect.cc:234-272 | "62;1;4;9;314" with no prior emulation yields VT220, {col132, sixel, nrcs, capturecontour} and no unknown codes |
| Replies.Da1ExampleFields | termdetect.cc:134-160 | the fields 1, 4, 9 and 314 are valid, join to "1;4;9;314", and are all known codes, mapping to those four features |
| Replies.Da2LeadFirstMatch | termdetect.cc:290-296 | the first table prefix is removed and sets both the DA2 emulation and the emulation, whatever they were |
| Replies.Da2LeadNoMatch | termdetect.cc:298-301 | with no table match, only a leading "1;" is skipped, and neither emulation changes |
| Replies.DotRun | termdetect.cc:309-314 | the `do ... while` over dotted numbers stops inside the field, and on success at its end or at a character that is not '.' |
| Replies.DotRunStep | termdetect.cc:309-314 | a number followed by '.' sends the loop on to the next '.' |
| Replies.DotRunLast | termdetect.cc:309-314 | a number that runs to the field's end ends the loop there successfully |
| Replies.DotRunAfter | termdetect.cc:309-314 | after a '.', the loop converts the next number and goes on exactly when that conversion succeeds and stops at another '.' |
| Replies.Da2Tail | termdetect.cc:324-340 | the tail step never changes the emulations or the version text |
| Replies.Da2TailAfter | termdetect.cc:324-340 | on a rest ";…", the second number is merged as vn·100+vn2 iff it parses, vn < 10000 and 0 < vn2 < 100; a tail of exactly ";0" then becomes empty |
| Replies.Da2MergeRule | termdetect.cc:304-340 | for a version "a;b", vn = a·100+b iff a < 10000 and 0 < b < 100, and then the tail is empty; otherwise vn = a, and the tail ";b" is kept unless b is 0 |
| Replies.Da2TailDigits | termdetect.cc:325-339 | the same rule for any digit string after ';' (so ";00" stays); the tail is dropped only for exactly ";0" |
| Replies.Da2TailNumber | termdetect.cc:325-339 | the merge rule for a rendered number after ';': merged iff vn < 10000 and 0 < b < 100, tail dropped when merged or b is 0 |
| Replies.Da2VersionPlain | termdetect.cc:304-307 | a plain number up to ';' or the end becomes vn, and the rest goes to the tail step |
| Replies.Da2NoNumber | termdetect.cc:306-307 | when the first number does not parse, nothing is set (vn stays as it was) |
| Replies.Da2VersionDotted | termdetect.cc:308-320 | a dotted version that parses up to ';' or the end is copied literally into the version text, vn takes its first number, and a rest of exactly ";0" returns early |
| Replies.Da2DottedVersion | termdetect.cc:308-320 | "x.y.z" followed by the end or ';' is copied literally as the version; with the rest ";0", only vn and the version change |
| Replies.Da2DottedDigits | termdetect.cc:308-320 | the same for any digit strings "a.b.c", leading zeros kept |
| Replies.ParseDa2 | termdetect.cc:285-342 | either both emulations are kept, or the emulation is set to the DA2 emulation (with `Da2MergeRule` and `Da2VersionDotted` giving the versions) |
| Replies.Da2Example | termdetect.cc:285-342 | "65;95;1" gives VT525 in both emulations, vn = 9501 and an empty tail |
| Replies.PrefixesStartWithDigit | termdetect.cc:109-131 | every table prefix starts with a digit |
| Replies.NonNumericReply | termdetect.cc:234-342 | a reply that does not start with a digit, such as "<NO REPLY>", changes nothing in either parse (DA1 only trims) |
| Replies.NormaliseTn | termdetect.cc:355-356 | the TN reply is kept or replaced by "???" (exactly when, see `NormaliseTnProperties`) |
| Replies.NormaliseTnProperties | termdetect.cc:355-356 | the TN fix-up is idempotent and changes a reply iff it starts with DCS "0" (and is not already "???") |
| Names.ImplementationName | termdetect.cc:719-784 | every implementation, `unknown` included, has a non-empty name |
| Names.ImplementationNameInjective | termdetect.cc:725-773 | different implementations have different names |
| Names.EmulationLabel | termdetect.cc:793-847 | every emulation, unknown included, has a non-empty label |
| Names.EmulationLabelInjective | termdetect.cc:793-847 | different emulations have different labels |
| Names.EscapeByte | termdetect.cc:849-853 | a printable byte is shown as itself; any other byte as " \x" and two hex digits, with the leading space |
| Names.EscapedAppend | termdetect.cc:849-853 | escaping works byte by byte: escaping a concatenation concatenates the escapes |
| Names.EscapedPrintable | termdetect.cc:849-851 | an all-printable tail is shown verbatim |
| Names.EscapedIsPrintable | termdetect.cc:849-853 | everything `emulation_name` appends is printable |
| Names.EscapeByteRoundTrip | termdetect.cc:853 | the two hex digits of an escape read back as the escaped byte |
| Names.FeatureName | termdetect.cc:859-921 | every feature has a non-empty name |
| Names.FeatureNameRoundTrip | termdetect.cc:859-921 | every feature name reads back as its feature |
| Names.FeatureNameInjective | termdetect.cc:859-921 | different features have different names |
| Names.HorScrollName | termdetect.cc:890-891 | horizontal scrolling is named "horscoll", as misspelt in the source |
| Names.DefaultRequestDelay | termdetect.cc:166-177 | 500 ms iff DISPLAY is set, non-empty and does not start with ':'; 100 ms otherwise |
| Names.Raw | termdetect.cc:615 | the `raw` line, whose layout `RawLayout` states |
| Names.LabelledSnoc | termdetect.cc:615 | appending one label and reply to the lists appends them to the line |
| Names.LabelledSix | termdetect.cc:615 | six labels and replies are laid out as label1 reply1 … label6 reply6 |
| Names.LabelledAt | termdetect.cc:615 | in a labelled line, the k-th label is followed by the k-th reply verbatim, after the first k pairs |
| Names.RawLayout | termdetect.cc:615 | `raw` is "TN=", ", DA1=", ", DA2=", ", DA3=", ", OSC702=", ", Q=", each followed by its reply, in that order |
| Names.RawFieldAt | termdetect.cc:615 | each of the six labels in `raw` is followed by its probe's reply verbatim |
| Session.Fresh | termdetect.hh:96-101 | a fresh object: implementation and both emulations unknown; version, features, unknown codes and `raw` empty; every reply "<NOT ISSUED>"; no alarm; vn 0; nothing sent |
| Session.IsSt | termdetect.cc:370-376 | the evidence for st; `PredicatesOnceFixed` states that it is decided by the implementation once that is known |
| Session.IsAlacritty | termdetect.cc:379-390 | the evidence for Alacritty; `PredicatesOnceFixed` states that it is decided by the implementation once that is known |
| Session.IsVte | termdetect.cc:393-399 | the evidence for VTE; `PredicatesOnceFixed` states that it is decided by the implementation once that is known |
| Session.IsNotVte | termdetect.cc:404-411 | the evidence for not VTE; `PredicatesOnceFixed` states that it is decided by the implementation once that is known |
| Session.IsRxvt | termdetect.cc:414-420 | the evidence for rxvt; `PredicatesOnceFixed` states that it is decided by the implementation once that is known |
| Session.IsMrxvt | termdetect.cc:423-429 | the evidence for mrxvt; `PredicatesOnceFixed` states that it is decided by the implementation once that is known |
| Session.IsKitty | termdetect.cc:432-438 | the evidence for kitty; `PredicatesOnceFixed` states that it is decided by the implementation once that is known |
| Session.IsXterm | termdetect.cc:441-447 | the evidence for xterm; `PredicatesOnceFixed` states that it is decided by the implementation once that is known |
| Session.IsContour | termdetect.cc:450-456 | the evidence for contour; `PredicatesOnceFixed` states that it is decided by the implementation once that is known |
| Session.IsTerminology | termdetect.cc:459-465 | the evidence for terminology; `PredicatesOnceFixed` states that it is decided by the implementation once that is known |
| Session.IsKonsole | termdetect.cc:468-474 | the evidence for Konsole; `PredicatesOnceFixed` states that it is decided by the implementation once that is known |
| Session.IsEterm | termdetect.cc:477-480 | the evidence for Eterm; `PredicatesOnceFixed` states that it is decided by the implementation once that is known |
| Session.IsQt5 | termdetect.cc:483-489 | the evidence for Qt5; `PredicatesOnceFixed` states that it is decided by the implementation once that is known |
| Session.IsGhostty | termdetect.cc:492-498 | the evidence for ghostty; `PredicatesOnceFixed` states that it is decided by the implementation once that is known |
| Session.PredicatesOnceFixed | termdetect.cc:370-498 | once the implementation is not unknown, every `is_X` is `implementation == X` and `is_not_vte` is `implementation != vte`, whatever the replies; `is_eterm` is only that equality |
| Session.AlacrittyShape | termdetect.cc:379-390 | DA1 "6" with DA2 "0;<number>;1" is recognised as Alacritty |
| Session.Issue | termdetect.cc:345-367 | a request logs its probe and changes only that probe's reply; the implementation, emulation, features, version and alarm are kept |
| Session.IssueStores | termdetect.cc:345-367 | the probe's field receives exactly what the exchange delivers, with the TN fix-up for TN |
| Session.IssueDa1 | termdetect.cc:226-231 | DA1 is logged, every reply is that of a plain DA1 request (the parse does not touch replies), and the implementation and the alarm stay |
| Session.IssueDa2 | termdetect.cc:275-282 | DA2 is logged, every reply is that of a plain DA2 request, and the implementation and the alarm stay |
| Session.LaterReplyWins | termdetect.cc:576-591 | when Q, TN or DA3 is sent twice and data arrives, the first reply leaves no trace |
| Session.Opening | termdetect.cc:519-520 | DA2 is sent before DA1, `da2_alarmed` holds iff the DA2 exchange failed, and no other reply is touched |
| Session.TermGuard | termdetect.cc:558-568 | the guard changes only the implementation (to Emacs Term or Eterm) and the emulation |
| Session.QuestionBlock | termdetect.cc:575-582 | the first block sends something iff VTE is excluded and rxvt not seen, and only extends the log, by at most two probes and never OSC702 |
| Session.Da3Block | termdetect.cc:584-593 | the second block sends something iff neither kitty nor rxvt is seen, and only extends the log, by at most three probes and never OSC702 |
| Session.Osc702Block | termdetect.cc:598-609 | the third block only extends the log, by at most two probes, and keeps the implementation |
| Session.Osc702BlockLast | termdetect.cc:598-608 | OSC702, if sent, is sent once, last in its block, and only while DA3 holds "<NOT ISSUED>" |
| Session.Osc702BlockRxvt | termdetect.cc:598-604 | rxvt (not kitty, not mrxvt) with DA3 still unsent is sent OSC702 |
| Session.Schedule | termdetect.cc:574-610 | the schedule after DA1/DA2 only extends the log, by at most seven probes |
| Session.Guarded | termdetect.cc:517-568 | before the schedule: DA2 and DA1 sent, the implementation unknown, Emacs Term or Eterm, and nothing else issued |
| Session.Probed | termdetect.cc:517-610 | a run starts with DA2 then DA1 and sends between 2 and 9 probes |
| Session.StopsAfterOpening | termdetect.cc:574-610 | nothing follows DA1/DA2 iff their evidence shows st, Alacritty, Eterm, Qt5 or mrxvt |
| Session.StopsWhen | termdetect.cc:574-610 | the schedule sends nothing iff the evidence is conclusive or shows mrxvt |
| Session.Osc702Last | termdetect.cc:598-608 | in every run, OSC702 is sent at most once, as the last probe, and only while DA3 holds "<NOT ISSUED>" |
| Session.ScheduleOsc702 | termdetect.cc:598-608 | from a state where OSC702 was not sent, the schedule sends it at most once, as the last probe |
| Session.Rules | termdetect.cc:618-643 | the priority chain has thirteen rules |
| Session.FirstRule | termdetect.cc:618-643 | when no rule's evidence holds, the prior implementation is kept |
| Session.FirstRuleAt | termdetect.cc:618-643 | the verdict is that of the first rule whose evidence holds |
| Session.PriorityChain | termdetect.cc:618-643 | the order: st, VTE DA3 id, foot DA3 id, terminology, contour, xterm, mrxvt, rxvt by OSC702, kitty, alacritty, konsole, qt5, ghostty, else unchanged |
| Session.Identify | termdetect.cc:618-643 | the verdict is the prior implementation or one of the thirteen named ones (`IdentifyByRules` gives which) |
| Session.IdentifyByRules | termdetect.cc:618-643 | the if-chain equals the first matching rule of that chain |
| Session.IdentifyIdempotent | termdetect.cc:618-643 | running the chain again on its own verdict gives the same verdict |
| Session.FormatVersion | termdetect.cc:672-677 | the version text is never empty |
| Session.FormatVersionRoundTrip | termdetect.cc:672-677 | "M", "M.m" or "M.m.p", chosen by vn%10000 and vn%100, reads back as vn |
| Session.VersionParts | termdetect.cc:672-677 | vn is its major·10000 + minor·100 + patch, and vn%10000 = 0 leaves no minor and no patch |
| Session.TwoPartRoundTrip | termdetect.cc:675 | "major.minor" reads back as major·10000 + minor·100 |
| Session.ThreePartRoundTrip | termdetect.cc:677 | "major.minor.patch" reads back as major·10000 + minor·100 + patch |
| Session.VersionStep | termdetect.cc:646-679 | the version step changes only the version text and vn, and nothing at all when DA2 gave a version |
| Session.ScaledVersion | termdetect.cc:657-670 | the scaled vn stays within 32 bits when vn does (`RxvtVersion`, `KittyVersion`, `XtermVersion`, `VteVersion` give each rule) |
| Session.RenderedVersion | termdetect.cc:657-678 | outside terminology, Konsole and kitty's "kitty(" reply, the version is the formatted scaled vn |
| Session.RxvtVersion | termdetect.cc:658-660 | rxvt's vn 95 is major 9, minor 5: "9.5" |
| Session.KittyVersion | termdetect.cc:661-663 | kitty's 400029 loses its added 4000 and reads "0.29" |
| Session.XtermVersion | termdetect.cc:664-666 | xterm's 390 is scaled by 10000 and reads "390" |
| Session.VteVersion | termdetect.cc:667-669 | VTE's 760101 loses its last two digits and reads "0.76.1" |
| Session.RxvtVersionText | termdetect.cc:672-677 | the scaled value 90500 reads "9.5" |
| Session.KittyVersionText | termdetect.cc:672-677 | 2900 reads "0.29" |
| Session.VteVersionText | termdetect.cc:672-677 | 7601 reads "0.76.1" |
| Session.XtermVersionText | termdetect.cc:672-677 | 3900000 reads "390" |
| Session.AlacrittyEmulation | termdetect.cc:681-688 | the Alacritty fix-up changes only the emulation |
| Session.AlacrittyVt102 | termdetect.cc:681-688 | Alacritty at VT100 with DA1 "6" becomes a VT102 |
| Session.ForcedFeatures | termdetect.cc:690-699 | exactly DECSTBM is added, plus desktop notifications for kitty and vertical line markers for contour |
| Session.Identified | termdetect.cc:615-643 | writing `raw` and picking the implementation change only those two fields |
| Session.Classify | termdetect.cc:612-699 | classification keeps the probe log, only adds features and always adds DECSTBM (`ClassifyProperties` gives the rest) |
| Session.Detect | termdetect.cc:517-699 | a detection run's log is that of the probing and its features include DECSTBM |
| Session.ClassifyProperties | termdetect.cc:615-699 | after classification: `raw` lists the six replies, the implementation is the first matching rule, the replies and the log are kept, a DA2 version is kept, DECSTBM is present and at most three features are added |
| Session.EmacsTermRun | termdetect.cc:558-609 | Emacs Term (TERM "eterm-color", nothing answered) still gets Q, TN, DA3, Q, TN, DA3, no OSC702, and classifies as Emacs Term, VT100, {decstbm} |
| Session.EmacsTermSchedule | termdetect.cc:574-609 | for Emacs Term on a silent terminal, the schedule times out on exactly those six probes |
| Session.SilentOpening | termdetect.cc:519-520 | on a silent terminal DA1 and DA2 store "<NO REPLY>", and no emulation or feature is found |
| Session.SilentQuestionBlock | termdetect.cc:575-582 | for Emacs Term on a silent terminal the first block times out on Q then TN |
| Session.SilentDa3Block | termdetect.cc:584-593 | for Emacs Term on a silent terminal the second block times out on DA3, Q and TN |
| Session.SilentOsc702Block | termdetect.cc:598-609 | for Emacs Term on a silent terminal the third block times out on DA3 only, never sending OSC702 |
| Session.SilentIssue | termdetect.cc:197-211 | a probe a silent terminal does not answer stores "<NO REPLY>" and is logged |
| Session.EmacsTermClassify | termdetect.cc:618-699 | no rule fires on Emacs Term's replies: it stays Emacs Term at VT100 and gains only DECSTBM |
| Session.EmacsTermIdentify | termdetect.cc:618-643 | with DA3 silent and OSC702 unsent, Emacs Term keeps its implementation through the chain |
| Session.EtermRun | termdetect.cc:558-574 | Eterm (TERM exactly "Eterm", nothing answered) gets no probe after DA2 and DA1 |
| Session.StRun | termdetect.cc:370-376 | st (DA2 times out, DA1 "6") gets no further probe and classifies as st at VT102 |
| Session.StClassify | termdetect.cc:370-376 | DA1 "6" with a failed DA2 is st, and classification keeps its emulation |
| Session.StOpening | termdetect.cc:519-520 | for st the opening stores DA1 "6", sets the alarm and reads VT102 from the bare id |
| Session.StDa1Reply | termdetect.cc:216-220 | the DA1 reply `CSI ? 6 c` is stored as "6" |
| Session.StDa1Parse | termdetect.cc:241-254 | the bare id "6" with no prior emulation parses as VT102 with no features |
| TermDetect.Info.Empty | termdetect.hh:96-120 | a default object is `Fresh()` and holds no descriptor (-1) |
| TermDetect.Info.constructor | termdetect.cc:502-704 | an unopened terminal leaves the object fresh; an opened one ends as `Detect(o, term)`, keeps its descriptor number, and with `close_fd` passes it to the system's close once, as written |
| TermDetect.Info.GetFd | termdetect.hh:109 | `get_fd()` returns the descriptor held |
| TermDetect.Info.Close | termdetect.hh:110-116 | after `close()` no descriptor is held, and a held one is passed to the system's close exactly once |
| TermDetect.Info.CloseTwice | termdetect.hh:112 | calling `close()` twice closes a held descriptor only once, leaves none held and keeps the detection results |
| TermDetect.Info.Destroy | termdetect.hh:90 | the destructor closes a still-held descriptor once |
| TermDetect.Info.ReleaseAsWritten | termdetect.cc:612-613 | the constructor's release closes the descriptor but keeps its number |
| TermDetect.Info.ReleaseThenDestroyAsWritten | termdetect.cc:612-613 | as written, the release and then the destructor close the same descriptor twice; afterwards none is held and the detection results are kept |
| TermDetect.Info.ReleaseThenDestroy | termdetect.hh:110-116 | releasing through `close()` leaves the destructor nothing to close: the descriptor is closed once, none is held and the detection results are kept |
| TermDetect.Info.EmulationName | termdetect.cc:787-856 | `emulation_name()` is the label followed by the escaped DA2 tail |
| TermDetect.Info.AppendEscaped | termdetect.cc:849-853 | the append loop produces the lead followed by the escaped tail |
| TermDetect.Info.ParseDa1 | termdetect.cc:234-272 | `parse_da1` moves the object to `AfterDa1`, the result of `Replies.ParseDa1` on its fields, and leaves the descriptor alone |
| TermDetect.Info.ScanDa1 | termdetect.cc:234-272 | the cursor code computes `Replies.ParseDa1` |
| TermDetect.Info.ScanDa1Lead | termdetect.cc:241-254 | the prefix loop computes the first-match prefix step |
| TermDetect.Info.ScanDa1Codes | termdetect.cc:256-268 | the `while` loop over the codes computes the feature step |
| TermDetect.Info.ParseDa2 | termdetect.cc:285-342 | `parse_da2` moves the object to `AfterDa2`, the result of `Replies.ParseDa2` on its fields, and leaves the descriptor alone |
| TermDetect.Info.ScanDa2 | termdetect.cc:285-342 | the cursor code computes `Replies.ParseDa2` |
| TermDetect.Info.ScanDa2Lead | termdetect.cc:289-301 | the prefix loop computes the prefix step |
| TermDetect.Info.ScanDa2Version | termdetect.cc:303-323 | the version code with its `do ... while` computes the version step |
| TermDetect.Info.ScanDa2Tail | termdetect.cc:324-340 | the merge code computes the tail step |
| TermDetect.Info.MakeDa1Request | termdetect.cc:226-231 | `make_da1_request` is the DA1 step |
| TermDetect.Info.MakeDa2Request | termdetect.cc:275-282 | `make_da2_request` is the DA2 step and returns the exchange's failure |
| TermDetect.Info.MakeDa3Request | termdetect.cc:345-348 | `make_da3_request` is the DA3 step |
| TermDetect.Info.MakeTnRequest | termdetect.cc:350-357 | `make_tn_request` is the TN step, with its fix-up |
| TermDetect.Info.MakeQRequest | termdetect.cc:359-362 | `make_q_request` is the Q step |
| TermDetect.Info.MakeOsc702Request | termdetect.cc:364-367 | `make_osc702_request` is the OSC702 step |
| TermDetect.Info.OpeningRequests | termdetect.cc:519-520 | DA2, with its failure stored as the alarm, then DA1 |
| TermDetect.Info.GuardEterm | termdetect.cc:558-568 | the `TERM` guard is `Session.TermGuard` |
| TermDetect.Info.ProbeQuestion | termdetect.cc:575-582 | the first block is `Session.QuestionBlock` |
| TermDetect.Info.ProbeDa3 | termdetect.cc:584-593 | the second block is `Session.Da3Block` |
| TermDetect.Info.ProbeOsc702 | termdetect.cc:598-609 | the third block is `Session.Osc702Block` |
| TermDetect.Info.RunProbes | termdetect.cc:519-610 | the probing from a fresh object ends in `Session.Probed` |
| TermDetect.Info.ClassifyReplies | termdetect.cc:615-699 | the classifier ends in `Session.Classify` |
| TermDetect.Info.SetVersion | termdetect.cc:646-679 | the version step is `Session.VersionStep` |
| TermDetect.Info.FixAlacrittyEmulation | termdetect.cc:681-688 | the fix-up is `Session.AlacrittyEmulation` |
| TermDetect.Info.ScanPrefixes | termdetect.cc:682-687 | the scan over the table yields the first entry the extended reply starts with |
| TermDetect.AllocThenDestroy | termdetect.cc:612-613 | `info::alloc` with the default `close_fd`, then destruction: the result is `Detect(o, term)` and the descriptor reaches close twice (termdetect.hh:90, 110-116) |
| TermDetect.Info.AddForcedFeatures | termdetect.cc:690-699 | the feature additions are `Session.ForcedFeatures` |

## Left out

- Raw mode, `write`, `poll` and `read` on the terminal, opening
  `_PATH_TTY`, and the SIGTTOU/SIGTTIN handling
  (termdetect.cc:186-214, 504-515, 702-703). These are operating-system
  I/O. They are replaced by the oracle's answer and by the descriptor the
  constructor is given.
- The global `request_delay`, `set_request_delay` and the poll timeout
  (termdetect.cc:164, 198, 512-513, 713-716). These are wall-clock
  behaviour. Only the choice of the default delay is modelled.
- `getenv("DISPLAY")` and `getenv("TERM")`: their values are parameters.
- `get_geometry` (termdetect.cc:923-938): it is an ioctl with no logic
  to model.
- inittest.cc: it only prints the results.
- `info::alloc` (termdetect.cc:707-710): the `shared_ptr` is not modelled.
  Its use of the default `close_fd` is modelled in `TermDetect.AllocThenDestroy`.
- Bytes beyond the first 4096 of a reply: a single `read` is modelled, so
  later bytes are not delivered to a later probe.
- Reply bytes are `char`s with values below 256. The model does no
  encoding.
- Names.EscapeByte: the source loops over signed `char`
  (termdetect.cc:849-853), so a byte from 0x80 to 0xFF reaches `isprint`
  as a negative value, and `{:02x}` of that negative `char` prints "-xx"
  (before P2909). The model treats every byte as unsigned and always
  shows two hex digits.
- Replies.Da2Tail: `parse_da2` tests `sv[0] == ';'` (termdetect.cc:325)
  even when the view may be empty, as after DA2 "65;95". Indexing an
  empty `string_view` is undefined behaviour; in practice it reads the
  terminating NUL. The model tests for a non-empty rest first, which
  matches that in-practice reading.
- Channel.Exchange: `read` returning 0 bytes (`Data([])`) behaves like a
  read error, as in the source.
- TermDetect.Info.constructor: the `assert`s and throwing `substr` calls
  (termdetect.cc:607, 649-650, 653-654) become its precondition: rxvt
  must have answered OSC702, and the Q reply must be long enough for
  terminology and Konsole.
- Names.ImplementationName: the `default` branch (termdetect.cc:774-780),
  which would print the DA3 bytes, is not modelled, because every
  enumerator has a case.
- Names.FeatureName: the `default` branch "unknown<n>"
  (termdetect.cc:918-919) is not modelled, for the same reason.
- Session.Identified: the source writes `raw` before the implementation.
  The model writes both at once, because identification does not read
  `raw`.

## Findings

| source | as written | input that shows it | evidently intended | confidence | as-written member | corrected member |
|---|---|---|---|---|---|---|
| termdetect.cc:612-613 | with `close_fd`, the constructor calls `::close(tty_fd)` but leaves `tty_fd` set, so the destructor's `close()` (termdetect.hh:90, 110-116) closes the same descriptor again | any opened terminal with `close_fd` true, followed by destruction | release through `close()`, which resets `tty_fd` to -1, so the descriptor is closed once | not executed | TermDetect.Info.ReleaseThenDestroyAsWritten | TermDetect.Info.ReleaseThenDestroy |
