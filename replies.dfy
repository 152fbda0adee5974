/**
  Decoding of the Device Attributes replies (`parse_da1`, `parse_da2`) and
  the TN error normalisation. A `string_view` cursor is a suffix of the reply
  (`remove_prefix` drops its front); the functions here are the
  specifications the imperative parsers in module TermDetect are proved
  against.
 */
module Replies {
  import opened Terminal
  import opened Text
  import opened Tables

  // ---------------------------------------------------------------- DA1

  /** The fields `parse_da1` updates. */
  datatype Da1Result = Da1Result(emulation: Emulation, features: set<Feature>, unknown: string)

  /**
    The emulation-prefix step of `parse_da1`: the first table entry that the
    reply starts with, or that the whole reply is without its last
    character, is removed. A full prefix overrides an emulation that is
    unknown or VT100; a bare id overrides only an unknown one.
   */
  function Da1Lead(reply: string, emulation: Emulation): (string, Emulation)
  {
    var k := FirstEmulation(reply, true, 0);
    if k == |KnownEmulations| then (reply, emulation)
    else
      var (prefix, e) := KnownEmulations[k];
      if StartsWith(reply, prefix)
      then (reply[|prefix|..], if emulation == UnknownEmulation || emulation == Vt100 then e else emulation)
      else ([], if emulation == UnknownEmulation then e else emulation)
  }

  /**
    The feature loop of `parse_da1` over the view `sv`: each field must be a
    number ending at ';' or at the end; known codes become features, unknown
    ones are appended verbatim with their ';'; the first malformed field ends
    the loop.
   */
  function Da1Codes(sv: string, features: set<Feature>, unknown: string): (res: (set<Feature>, string))
    ensures features <= res.0
    decreases |sv|
  {
    if sv == [] then (features, unknown)
    else
      var c := FromChars(sv, 0, |sv|);
      if !c.ok || !(c.stop == |sv| || sv[c.stop] == ';') then (features, unknown)
      else
        var next := if c.stop < |sv| then c.stop + 1 else c.stop;
        if c.value in KnownFeatures
        then Da1Codes(sv[next..], features + {KnownFeatures[c.value]}, unknown)
        else Da1Codes(sv[next..], features, unknown + sv[..next])
  }

  /** The final step of `parse_da1`: one trailing ';' of the unknown-feature text is dropped. */
  function TrimSemicolon(s: string): (r: string)
    ensures r == s || (EndsWith(s, ";") && s == r + ";")
  {
    if EndsWith(s, ";") then s[..|s| - 1] else s
  }

  /** `parse_da1` on the DA1 reply, starting from the current values of the fields it updates. */
  function ParseDa1(reply: string, prior: Da1Result): (r: Da1Result)
    ensures prior.features <= r.features
    ensures r.emulation != prior.emulation ==> prior.emulation in {UnknownEmulation, Vt100}
  {
    var (sv, emulation) := Da1Lead(reply, prior.emulation);
    var (features, unknown) := Da1Codes(sv, prior.features, prior.unknown);
    Da1Result(emulation, features, TrimSemicolon(unknown))
  }

  /** The ';'-separated fields of a string ("" has one empty field). */
  function Split(s: string): (fields: seq<string>)
    ensures |fields| > 0
    decreases |s|
  {
    var i := IndexOf(s, ';', 0);
    if i == |s| then [s] else [s[..i]] + Split(s[i + 1..])
  }

  /** The fields joined back with ';' between them. */
  function Join(fields: seq<string>): string
    requires |fields| > 0
  {
    if |fields| == 1 then fields[0] else fields[0] + ";" + Join(fields[1..])
  }

  /** Splitting undoes joining for fields that hold no ';'. */
  lemma {:induction false} SplitJoin(fields: seq<string>)
    requires |fields| > 0
    requires forall i, k :: 0 <= i < |fields| && 0 <= k < |fields[i]| ==> fields[i][k] != ';'
    ensures Split(Join(fields)) == fields
  {
    var f := fields[0];
    var s := Join(fields);
    assert IndexOf(s, ';', 0) == |f| by {
      forall k | 0 <= k < |f| ensures s[k] != ';' {
        assert s[k] == f[k];
      }
      if |fields| > 1 {
        assert s[|f|] == ';';
      } else {
        assert s == f;
      }
    }
    if |fields| > 1 {
      assert s[..|f|] == f;
      assert s[|f| + 1..] == Join(fields[1..]);
      SplitJoin(fields[1..]);
    }
  }

  /** A field `from_chars` accepts as a whole: digits only, at least one, within `unsigned`. */
  predicate ValidCode(field: string)
  {
    |field| > 0 && AllDigits(field) && DecimalValue(field) <= UintMax
  }

  /**
    Reference reading of DA1's feature list, field by field: decode the
    leading valid fields; a known code adds its feature, an unknown one adds
    its text followed by ';' when another field follows it.
   */
  function DecodeFields(fields: seq<string>, features: set<Feature>, unknown: string): (set<Feature>, string)
  {
    if fields == [] || !ValidCode(fields[0]) then (features, unknown)
    else
      var code := DecimalValue(fields[0]);
      if code in KnownFeatures
      then DecodeFields(fields[1..], features + {KnownFeatures[code]}, unknown)
      else DecodeFields(fields[1..], features, unknown + fields[0] + (if |fields| > 1 then ";" else ""))
  }

  /** The digit run at the front of a view ends at the first ';' exactly when the field before that ';' is all digits. */
  lemma RunEndsAtSeparator(sv: string, stop: nat, i: nat)
    requires stop <= |sv| && AllDigits(sv[..stop]) && (stop < |sv| ==> !IsDigit(sv[stop]))
    requires i <= |sv| && (i < |sv| ==> sv[i] == ';') && forall k :: 0 <= k < i ==> sv[k] != ';'
    ensures (stop == |sv| || sv[stop] == ';') <==> stop == i
    ensures AllDigits(sv[..i]) <==> stop == i
  {
    if stop < i {
      assert sv[stop] != ';';
      assert !AllDigits(sv[..i]) by {
        assert sv[..i][stop] == sv[stop];
      }
    }
  }

  /** The conversion at the front of a view succeeds up to a ';' or the end exactly when the first field is valid. */
  lemma FirstFieldConversion(sv: string)
    ensures var c := FromChars(sv, 0, |sv|);
            var i := IndexOf(sv, ';', 0);
            (c.ok && (c.stop == |sv| || sv[c.stop] == ';')) <==> ValidCode(sv[..i])
    ensures var c := FromChars(sv, 0, |sv|);
            var i := IndexOf(sv, ';', 0);
            ValidCode(sv[..i]) ==> c.stop == i && c.value == DecimalValue(sv[..i])
  {
    var c := FromChars(sv, 0, |sv|);
    var i := IndexOf(sv, ';', 0);
    assert sv[0..c.stop] == sv[..c.stop];
    RunEndsAtSeparator(sv, c.stop, i);
  }

  /** The cursor loop of `parse_da1` computes the field-by-field reading of the view. */
  lemma {:induction false} Da1CodesByFields(sv: string, features: set<Feature>, unknown: string)
    ensures Da1Codes(sv, features, unknown) == DecodeFields(Split(sv), features, unknown)
    decreases |sv|
  {
    var i := IndexOf(sv, ';', 0);
    var fields := Split(sv);
    assert fields[0] == sv[..i];
    if sv != [] {
      FirstFieldConversion(sv);
      var c := FromChars(sv, 0, |sv|);
      if ValidCode(sv[..i]) && i < |sv| {
        var next := c.stop + 1;
        assert sv[..next] == sv[..i] + ";";
        assert fields[1..] == Split(sv[next..]);
        if c.value in KnownFeatures {
          Da1CodesByFields(sv[next..], features + {KnownFeatures[c.value]}, unknown);
        } else {
          assert |fields| > 1;
          assert unknown + sv[..next] == unknown + fields[0] + ";";
          Da1CodesByFields(sv[next..], features, unknown + sv[..next]);
        }
      } else if ValidCode(sv[..i]) {
        assert sv[..c.stop] == sv && sv[c.stop..] == [];
        assert fields == [sv];
        assert fields[1..] == [];
        assert unknown + sv == unknown + fields[0] + "";
      }
    }
  }

  /** Decoding never loses what was already found: features only grow and unknown text is only appended to. */
  lemma {:induction false} DecodeFieldsKeeps(fields: seq<string>, features: set<Feature>, unknown: string)
    ensures features <= DecodeFields(fields, features, unknown).0
    ensures StartsWith(DecodeFields(fields, features, unknown).1, unknown)
  {
    if fields != [] && ValidCode(fields[0]) {
      var code := DecimalValue(fields[0]);
      var unknown' := unknown + fields[0] + (if |fields| > 1 then ";" else "");
      if code in KnownFeatures {
        DecodeFieldsKeeps(fields[1..], features + {KnownFeatures[code]}, unknown);
      } else {
        DecodeFieldsKeeps(fields[1..], features, unknown');
        var u := DecodeFields(fields, features, unknown).1;
        assert u[..|unknown|] == u[..|unknown'|][..|unknown|];
      }
    }
  }

  predicate AllValid(fields: seq<string>)
  {
    forall i :: 0 <= i < |fields| ==> ValidCode(fields[i])
  }

  predicate IsKnownCode(field: string)
    requires ValidCode(field)
  {
    DecimalValue(field) in KnownFeatures
  }

  /** The features the known codes among well-formed fields stand for. */
  function KnownCodes(fields: seq<string>): set<Feature>
    requires AllValid(fields)
  {
    if fields == [] then {}
    else (if IsKnownCode(fields[0]) then {KnownFeatures[DecimalValue(fields[0])]} else {}) + KnownCodes(fields[1..])
  }

  /** The well-formed fields whose codes are not known, in their order. */
  function UnknownCodes(fields: seq<string>): (u: seq<string>)
    requires AllValid(fields)
    ensures |u| <= |fields|
    ensures AllValid(u)
  {
    if fields == [] then []
    else if IsKnownCode(fields[0]) then UnknownCodes(fields[1..])
    else [fields[0]] + UnknownCodes(fields[1..])
  }

  /**
    The unknown-feature text decoding leaves behind: the unknown codes
    joined with ';', plus one ';' when a known code comes last (the
    separator after the last unknown code).
   */
  function UnknownText(fields: seq<string>): string
    requires AllValid(fields)
  {
    var u := UnknownCodes(fields);
    if u == [] then [] else Join(u) + (if IsKnownCode(fields[|fields| - 1]) then ";" else "")
  }

  lemma AllValidRest(fields: seq<string>)
    requires |fields| > 0 && AllValid(fields)
    ensures AllValid(fields[1..])
  {
    var rest := fields[1..];
    forall i | 0 <= i < |rest| ensures ValidCode(rest[i]) {
      assert rest[i] == fields[i + 1];
    }
  }

  /** The unknown-feature text of a field list, from that of its tail. */
  lemma UnknownTextCons(fields: seq<string>)
    requires |fields| > 0 && AllValid(fields)
    ensures AllValid(fields[1..])
    ensures var f, rest := fields[0], fields[1..];
            UnknownText(fields) ==
              if IsKnownCode(f) then UnknownText(rest)
              else f + (if rest != [] then ";" else "") + UnknownText(rest)
  {
    AllValidRest(fields);
    var f, rest := fields[0], fields[1..];
    if rest != [] {
      assert fields[|fields| - 1] == rest[|rest| - 1];
      var ur := UnknownCodes(rest);
      if !IsKnownCode(f) {
        if ur != [] {
          assert ([f] + ur)[1..] == ur;
        } else {
          UnknownCodesEmpty(rest);
        }
      }
    }
  }

  lemma {:induction false} DecodeValidFeatures(fields: seq<string>, features: set<Feature>, unknown: string)
    requires AllValid(fields)
    ensures DecodeFields(fields, features, unknown).0 == features + KnownCodes(fields)
  {
    if fields == [] {
      assert KnownCodes(fields) == {};
    } else {
      var f, rest := fields[0], fields[1..];
      AllValidRest(fields);
      if IsKnownCode(f) {
        DecodeValidFeatures(rest, features + {KnownFeatures[DecimalValue(f)]}, unknown);
      } else {
        DecodeValidFeatures(rest, features, unknown + f + (if |fields| > 1 then ";" else ""));
      }
    }
  }

  lemma {:induction false} DecodeValidText(fields: seq<string>, features: set<Feature>, unknown: string)
    requires AllValid(fields)
    ensures DecodeFields(fields, features, unknown).1 == unknown + UnknownText(fields)
  {
    if fields == [] {
      assert unknown + [] == unknown;
    } else {
      var f, rest := fields[0], fields[1..];
      assert ValidCode(f);
      UnknownTextCons(fields);
      if IsKnownCode(f) {
        var features' := features + {KnownFeatures[DecimalValue(f)]};
        assert DecodeFields(fields, features, unknown) == DecodeFields(rest, features', unknown);
        DecodeValidText(rest, features', unknown);
      } else {
        var sep := if |fields| > 1 then ";" else "";
        assert sep == if rest != [] then ";" else "";
        var unknown' := unknown + f + sep;
        assert DecodeFields(fields, features, unknown) == DecodeFields(rest, features, unknown');
        DecodeValidText(rest, features, unknown');
        ConcatAssoc(unknown + f, sep, UnknownText(rest));
        ConcatAssoc(unknown, f, sep + UnknownText(rest));
        ConcatAssoc(f, sep, UnknownText(rest));
      }
    }
  }

  /**
    On well-formed fields decoding is exact: every known code adds its
    feature, and the unknown ones are recorded verbatim, in order.
   */
  lemma DecodeValidFields(fields: seq<string>, features: set<Feature>, unknown: string)
    requires AllValid(fields)
    ensures DecodeFields(fields, features, unknown) == (features + KnownCodes(fields), unknown + UnknownText(fields))
  {
    DecodeValidFeatures(fields, features, unknown);
    DecodeValidText(fields, features, unknown);
  }

  /** Without unknown codes, the last field is known (when there is one). */
  lemma UnknownCodesEmpty(fields: seq<string>)
    requires |fields| > 0 && AllValid(fields)
    requires UnknownCodes(fields) == []
    ensures IsKnownCode(fields[|fields| - 1])
    decreases |fields|
  {
    if |fields| > 1 {
      var rest := fields[1..];
      assert AllValid(rest) by {
        forall i | 0 <= i < |rest| ensures ValidCode(rest[i]) {
          assert rest[i] == fields[i + 1];
        }
      }
      UnknownCodesEmpty(rest);
      assert fields[|fields| - 1] == rest[|rest| - 1];
    }
  }

  /**
    After the final trim, the unknown-feature text of a fully well-formed
    feature list is exactly its unknown codes joined with ';'.
   */
  lemma UnknownTextTrimmed(fields: seq<string>)
    requires AllValid(fields)
    ensures TrimSemicolon(UnknownText(fields)) == (if UnknownCodes(fields) == [] then [] else Join(UnknownCodes(fields)))
  {
    var u := UnknownCodes(fields);
    if u != [] {
      JoinLast(u);
      var j := Join(u);
      assert IsDigit(u[|u| - 1][|u[|u| - 1]| - 1]);
      assert (j + ";")[..|j|] == j;
    }
  }

  /** A join ends with the last character of its last field. */
  lemma {:induction false} JoinLast(fields: seq<string>)
    requires |fields| > 0 && |fields[|fields| - 1]| > 0
    ensures |Join(fields)| > 0
    ensures var j, l := Join(fields), fields[|fields| - 1]; j[|j| - 1] == l[|l| - 1]
  {
    if |fields| > 1 {
      JoinLast(fields[1..]);
      assert fields[1..][|fields| - 2] == fields[|fields| - 1];
    }
  }

  /** A malformed first field stops the feature loop at once: nothing is added, nothing already found is lost. */
  lemma Da1StopsAtMalformed(sv: string, features: set<Feature>, unknown: string)
    requires !ValidCode(Split(sv)[0])
    ensures Da1Codes(sv, features, unknown) == (features, unknown)
  {
    Da1CodesByFields(sv, features, unknown);
  }

  /**
    The emulation step of `parse_da1` follows table order: when entry `k` is
    the first entry the reply starts with (or is, minus its last character),
    it is the entry applied.
   */
  lemma Da1LeadFirstMatch(reply: string, emulation: Emulation, k: nat)
    requires k < |KnownEmulations|
    requires EntryMatches(reply, true, k)
    requires forall j :: 0 <= j < k ==> !EntryMatches(reply, true, j)
    ensures var (prefix, e) := KnownEmulations[k];
            Da1Lead(reply, emulation) ==
              if StartsWith(reply, prefix)
              then (reply[|prefix|..], if emulation in {UnknownEmulation, Vt100} then e else emulation)
              else ([], if emulation == UnknownEmulation then e else emulation)
  {
    FirstEmulationIs(reply, true, k);
  }

  /** A reply that matches no table entry leaves the emulation as it was and is decoded whole. */
  lemma Da1LeadNoMatch(reply: string, emulation: Emulation)
    requires forall j :: 0 <= j < |KnownEmulations| ==> !EntryMatches(reply, true, j)
    ensures Da1Lead(reply, emulation) == (reply, emulation)
  {
  }

  /**
    `parse_da1` on a reply whose feature list is well formed throughout:
    the emulation comes from the table scan, every known code becomes a
    feature and the unknown codes are recorded verbatim, joined with ';'.
   */
  lemma Da1WellFormed(reply: string, fields: seq<string>, prior: Da1Result)
    requires |fields| > 0 && AllValid(fields)
    requires Da1Lead(reply, prior.emulation).0 == Join(fields)
    requires prior.unknown == []
    ensures ParseDa1(reply, prior) ==
              Da1Result(Da1Lead(reply, prior.emulation).1, prior.features + KnownCodes(fields),
                        if UnknownCodes(fields) == [] then [] else Join(UnknownCodes(fields)))
  {
    var lead := Da1Lead(reply, prior.emulation);
    ParseDa1Steps(reply, prior);
    Da1CodesWellFormed(lead.0, fields, prior.features, prior.unknown);
    assert prior.unknown + UnknownText(fields) == UnknownText(fields);
    UnknownTextTrimmed(fields);
  }

  /** `parse_da1` runs its three steps in order. */
  lemma ParseDa1Steps(reply: string, prior: Da1Result)
    ensures var (sv, e) := Da1Lead(reply, prior.emulation);
            var (fs, u) := Da1Codes(sv, prior.features, prior.unknown);
            ParseDa1(reply, prior) == Da1Result(e, fs, TrimSemicolon(u))
  {
  }

  /** The feature loop over a well-formed list decodes it exactly. */
  lemma Da1CodesWellFormed(sv: string, fields: seq<string>, features: set<Feature>, unknown: string)
    requires |fields| > 0 && AllValid(fields)
    requires sv == Join(fields)
    ensures Da1Codes(sv, features, unknown) == (features + KnownCodes(fields), unknown + UnknownText(fields))
  {
    NoSeparatorInCodes(fields);
    SplitJoin(fields);
    Da1CodesByFields(sv, features, unknown);
    DecodeValidFields(fields, features, unknown);
  }

  /** Well-formed codes are digits only, so they hold no separator. */
  lemma NoSeparatorInCodes(fields: seq<string>)
    requires AllValid(fields)
    ensures forall i, k :: 0 <= i < |fields| && 0 <= k < |fields[i]| ==> fields[i][k] != ';'
  {
    forall i, k | 0 <= i < |fields| && 0 <= k < |fields[i]| ensures fields[i][k] != ';' {
      assert ValidCode(fields[i]);
      assert IsDigit(fields[i][k]);
    }
  }

  /** The documented example: "62;1;4;9;314" is a VT220 with four known features and nothing unknown. */
  lemma Da1Example()
    ensures ParseDa1("62;1;4;9;314", Da1Result(UnknownEmulation, {}, ""))
         == Da1Result(Vt220, {Col132, Sixel, Nrcs, CaptureContour}, "")
  {
    var reply := "62;1;4;9;314";
    Vt220Scan(reply, true);
    assert Da1Lead(reply, UnknownEmulation) == (reply[3..], Vt220);
    var fields := ["1", "4", "9", "314"];
    Da1ExampleFields(fields);
    assert reply[3..] == Join(fields);
    Da1WellFormed(reply, fields, Da1Result(UnknownEmulation, {}, ""));
  }

  /** The feature list of the documented example holds four known codes. */
  lemma Da1ExampleFields(fields: seq<string>)
    requires fields == ["1", "4", "9", "314"]
    ensures AllValid(fields) && Join(fields) == "1;4;9;314"
    ensures UnknownCodes(fields) == [] && KnownCodes(fields) == {Col132, Sixel, Nrcs, CaptureContour}
  {
    assert DecimalValue("314") == 314 by {
      assert "314"[..2] == "31" && "31"[..1] == "3" && "3"[..0] == "";
    }
    assert DecimalValue("1") == 1 && DecimalValue("4") == 4 && DecimalValue("9") == 9;
    assert AllValid(fields);
    AllValidRest(fields);
    AllValidRest(fields[1..]);
    AllValidRest(fields[2..]);
    assert fields[1..][1..] == fields[2..] && fields[2..][1..] == fields[3..];
    assert Join(fields) == "1;4;9;314" by {
      assert Join(fields[3..]) == "314";
      assert Join(fields[2..]) == "9;314";
      assert Join(fields[1..]) == "4;9;314";
    }
    Da1ExampleCodes(fields, fields[1..], fields[2..], fields[3..]);
  }

  lemma Da1ExampleCodes(fields: seq<string>, f1: seq<string>, f2: seq<string>, f3: seq<string>)
    requires fields == ["1", "4", "9", "314"] && f1 == fields[1..] && f2 == fields[2..] && f3 == fields[3..]
    requires AllValid(fields) && AllValid(f1) && AllValid(f2) && AllValid(f3)
    requires DecimalValue("1") == 1 && DecimalValue("4") == 4 && DecimalValue("9") == 9 && DecimalValue("314") == 314
    ensures UnknownCodes(fields) == [] && KnownCodes(fields) == {Col132, Sixel, Nrcs, CaptureContour}
  {
    assert f3 == ["314"] && f3[1..] == [];
    assert f2 == ["9", "314"] && f2[1..] == f3;
    assert f1 == ["4", "9", "314"] && f1[1..] == f2;
    assert fields[1..] == f1;
    assert KnownCodes(f3) == {CaptureContour};
    assert KnownCodes(f2) == {Nrcs, CaptureContour};
    assert KnownCodes(f1) == {Sixel, Nrcs, CaptureContour};
    assert KnownCodes(fields) == {Col132, Sixel, Nrcs, CaptureContour};
    assert UnknownCodes(f3) == [];
    assert UnknownCodes(f2) == [];
    assert UnknownCodes(f1) == [];
  }

  // ---------------------------------------------------------------- DA2

  /** The fields `parse_da2` updates. */
  datatype Da2Result = Da2Result(emulation: Emulation, da2Emulation: Emulation, vn: nat, version: string, tail: string)

  /**
    The prefix step of `parse_da2`: the first table entry the reply starts
    with sets both the DA2 emulation and the emulation; failing that, a
    leading "1;" (the generic VT220-class answer) is skipped.
   */
  function Da2Lead(reply: string, r: Da2Result): (string, Da2Result)
  {
    var k := FirstEmulation(reply, false, 0);
    if k < |KnownEmulations| then
      var (prefix, e) := KnownEmulations[k];
      (reply[|prefix|..], r.(emulation := e, da2Emulation := e))
    else if StartsWith(reply, "1;") then (reply[2..], r)
    else (reply, r)
  }

  /**
    The prefix step of `parse_da2` follows table order: the first entry the
    reply starts with is removed and sets both emulations, whatever they were.
   */
  lemma Da2LeadFirstMatch(reply: string, r: Da2Result, k: nat)
    requires k < |KnownEmulations|
    requires StartsWith(reply, KnownEmulations[k].0)
    requires forall j :: 0 <= j < k ==> !StartsWith(reply, KnownEmulations[j].0)
    ensures var (prefix, e) := KnownEmulations[k];
            Da2Lead(reply, r) == (reply[|prefix|..], r.(emulation := e, da2Emulation := e))
  {
    FirstEmulationIs(reply, false, k);
  }

  /** With no table entry matching, only a leading "1;" is skipped, and neither emulation changes. */
  lemma Da2LeadNoMatch(reply: string, r: Da2Result)
    requires forall j :: 0 <= j < |KnownEmulations| ==> !StartsWith(reply, KnownEmulations[j].0)
    ensures Da2Lead(reply, r) == if StartsWith(reply, "1;") then (reply[2..], r) else (reply, r)
  {
  }

  /**
    The `do ... while` of `parse_da2` over a dotted version, entered at the
    '.' at `dot`: parse the number after each '.', until a parse fails or no
    '.' follows. Yields the last conversion.
   */
  function DotRun(sv: string, dot: nat, svend: nat): (c: Conversion)
    requires dot < svend <= |sv| && sv[dot] == '.'
    ensures dot < c.stop <= svend
    ensures c.ok ==> c.stop == svend || sv[c.stop] != '.'
    decreases svend - dot
  {
    var c := FromChars(sv, dot + 1, svend);
    if c.ok && c.stop < svend && sv[c.stop] == '.' then DotRun(sv, c.stop, svend) else c
  }

  /**
    The tail step of `parse_da2` on the rest `sv` after the version number:
    it becomes the display tail; a second number after ';' is merged into
    `vn` as `vn * 100 + vn2` when `vn < 10000` and `0 < vn2 < 100`; a tail
    of exactly ";0" is then dropped. (On an empty rest the source reads the
    string's terminating NUL, which is not ';'.)
   */
  function Da2Tail(sv: string, r: Da2Result): (t: Da2Result)
    ensures t.emulation == r.emulation && t.da2Emulation == r.da2Emulation && t.version == r.version
  {
    var r1 := r.(tail := sv);
    if |sv| > 0 && sv[0] == ';' then
      var c := FromChars(sv, 1, |sv|);
      var r2 := if c.ok && r.vn < 10000 && c.value != 0 && c.value < 100
                then r1.(vn := r.vn * 100 + c.value, tail := sv[c.stop..])
                else r1;
      if r2.tail == ";0" then r2.(tail := []) else r2
    else r1
  }

  /**
    The version step of `parse_da2` on the view after the prefix: the number
    up to the first ';' becomes `vn`; a dotted version that parses up to that
    ';' (or the end) is copied literally into the version text, and a rest
    of exactly ";0" ends the parse there; otherwise the tail step runs. When
    the first number does not parse nothing changes.
   */
  function Da2Version(sv: string, r: Da2Result): (t: Da2Result)
    ensures t.emulation == r.emulation && t.da2Emulation == r.da2Emulation
  {
    var svend := IndexOf(sv, ';', 0);
    var c := FromChars(sv, 0, svend);
    if !c.ok then r
    else
      var r1 := r.(vn := c.value);
      if c.stop < svend && sv[c.stop] == '.' then
        var d := DotRun(sv, c.stop, svend);
        var r2 := if d.ok && (d.stop == svend || sv[d.stop] == ';') then r1.(version := sv[..d.stop]) else r1;
        var rest := sv[d.stop..];
        if rest == ";0" then r2 else Da2Tail(rest, r2)
      else Da2Tail(sv[c.stop..], r1)
  }

  /**
    `parse_da2` on the DA2 reply, starting from the current values of the
    fields it updates. The emulation only changes together with the DA2
    emulation, to the same table entry.
   */
  function ParseDa2(reply: string, r: Da2Result): (r2: Da2Result)
    ensures (r2.emulation == r.emulation && r2.da2Emulation == r.da2Emulation) || r2.emulation == r2.da2Emulation
  {
    var (sv, r1) := Da2Lead(reply, r);
    Da2Version(sv, r1)
  }

  /** The documented example: "65;95;1" is a VT525 whose second number merges, vn = 9501, empty tail. */
  lemma Da2Example()
    ensures ParseDa2("65;95;1", Da2Result(UnknownEmulation, UnknownEmulation, 0, "", ""))
         == Da2Result(Vt525, Vt525, 9501, "", "")
  {
    var reply := "65;95;1";
    Vt525Scan(reply, false);
    var sv := reply[3..];
    assert 95 / 10 == 9 && 95 % 10 == 5;
    assert Decimal(95) == Decimal(9) + "5";
    assert sv == Decimal(95) + ";" + Decimal(1);
    Da2MergeRule(95, 1, Da2Result(Vt525, Vt525, 0, "", ""));
  }

  /**
    The merge rule on a version "a;b": `vn` becomes `a * 100 + b` exactly
    when `a < 10000` and `0 < b < 100`, and the tail is then empty;
    otherwise `vn` is `a` and the tail ";b" is kept for display unless it is
    ";0". The version text is not touched.
   */
  lemma Da2MergeRule(a: nat, b: nat, r: Da2Result)
    requires a <= UintMax && b <= UintMax
    ensures var merged := a < 10000 && 0 < b < 100;
            Da2Version(Decimal(a) + ";" + Decimal(b), r)
              == r.(vn := if merged then a * 100 + b else a,
                    tail := if merged || b == 0 then [] else ";" + Decimal(b))
  {
    var da := Decimal(a);
    var rest := ";" + Decimal(b);
    var sv := Decimal(a) + ";" + Decimal(b);
    assert sv == da + rest;
    assert sv[..|da|] == da && sv[|da|..] == rest;
    assert StartsWith(sv, da);
    assert sv[|da|] == ';';
    Da2VersionPlain(sv, a, r);
    assert Da2Version(sv, r) == Da2Tail(rest, r.(vn := a));
    Da2TailNumber(b, r.(vn := a));
    var merged := a < 10000 && 0 < b < 100;
    assert Da2Tail(rest, r.(vn := a)) == r.(vn := if merged then a * 100 + b else a,
                                              tail := if merged || b == 0 then [] else rest);
  }

  /** A plain version number, followed by ';' or by nothing, becomes `vn`; the rest goes to the tail step. */
  lemma Da2VersionPlain(sv: string, n: nat, r: Da2Result)
    requires n <= UintMax
    requires StartsWith(sv, Decimal(n))
    requires |Decimal(n)| < |sv| ==> sv[|Decimal(n)|] == ';'
    ensures Da2Version(sv, r) == Da2Tail(sv[|Decimal(n)|..], r.(vn := n))
  {
    var d := Decimal(n);
    assert IndexOf(sv, ';', 0) == |d| by {
      forall k | 0 <= k < |d| ensures sv[k] != ';' {
        assert sv[k] == d[k];
        assert IsDigit(d[k]);
      }
    }
    assert sv[0..|d|] == d;
    FromCharsDecimal(sv, 0, |d|, n);
  }

  /** The tail step on ";b" after a version number `vn`. */
  lemma Da2TailNumber(b: nat, r: Da2Result)
    requires b <= UintMax
    ensures var merged := r.vn < 10000 && 0 < b < 100;
            Da2Tail(";" + Decimal(b), r)
              == r.(vn := if merged then r.vn * 100 + b else r.vn,
                    tail := if merged || b == 0 then [] else ";" + Decimal(b))
  {
    DecimalRoundTrip(b);
    Da2TailDigits(Decimal(b), r);
    assert b == 0 <==> Decimal(b) == "0";
  }

  /** The tail step on ";" and a run of digits `d` whose number fits. */
  lemma Da2TailDigits(d: string, r: Da2Result)
    requires AllDigits(d) && d != [] && DecimalValue(d) <= UintMax
    ensures var b := DecimalValue(d);
            var merged := r.vn < 10000 && 0 < b < 100;
            Da2Tail(";" + d, r)
              == r.(vn := if merged then r.vn * 100 + b else r.vn,
                    tail := if merged || d == "0" then [] else ";" + d)
  {
    var rest := ";" + d;
    var b := DecimalValue(d);
    assert rest[1..1 + |d|] == d;
    FromCharsDigits(rest, 1, |rest|, d);
    Da2TailAfter(rest, r, Conversion(true, b, |rest|));
    if r.vn < 10000 && 0 < b < 100 {
      assert rest[|rest|..] == [];
    } else {
      assert rest == ";0" <==> d == "0";
    }
  }

  /** The tail step on a rest opening with ';', for a known conversion after it. */
  lemma Da2TailAfter(sv: string, r: Da2Result, c: Conversion)
    requires |sv| > 0 && sv[0] == ';' && c == FromChars(sv, 1, |sv|)
    ensures var r2 := if c.ok && r.vn < 10000 && c.value != 0 && c.value < 100
                      then r.(vn := r.vn * 100 + c.value, tail := sv[c.stop..])
                      else r.(tail := sv);
            Da2Tail(sv, r) == if r2.tail == ";0" then r2.(tail := []) else r2
  {
  }

  /** A view that does not open with a number leaves every field as it was. */
  lemma Da2NoNumber(sv: string, r: Da2Result)
    requires sv == [] || !IsDigit(sv[0])
    ensures Da2Version(sv, r) == r
  {
  }

  /** A dotted version "x.y.z". */
  function Dotted3(x: nat, y: nat, z: nat): string
  {
    Decimal(x) + "." + Decimal(y) + "." + Decimal(z)
  }

  /** One turn of the `do ... while`: a number after the '.' at `dot` that is followed by another '.' continues the run there. */
  lemma DotRunStep(sv: string, dot: nat, svend: nat, d: string)
    requires AllDigits(d) && d != [] && DecimalValue(d) <= UintMax
    requires dot + 1 + |d| < svend <= |sv|
    requires sv[dot] == '.' && sv[dot + 1..dot + 1 + |d|] == d && sv[dot + 1 + |d|] == '.'
    ensures DotRun(sv, dot, svend) == DotRun(sv, dot + 1 + |d|, svend)
  {
    var e := dot + 1 + |d|;
    FromCharsDigits(sv, dot + 1, svend, d);
    DotRunAfter(sv, dot, svend, Conversion(true, DecimalValue(d), e));
  }

  /** `DotRun` unfolded once, for a known conversion after the '.'. */
  lemma DotRunAfter(sv: string, dot: nat, svend: nat, c: Conversion)
    requires dot < svend <= |sv| && sv[dot] == '.'
    requires c == FromChars(sv, dot + 1, svend)
    ensures DotRun(sv, dot, svend) == if c.ok && c.stop < svend && sv[c.stop] == '.' then DotRun(sv, c.stop, svend) else c
  {
  }

  /** The last turn: a number after the '.' at `dot` that runs up to `svend` ends the run successfully at `svend`. */
  lemma DotRunLast(sv: string, dot: nat, svend: nat, d: string)
    requires AllDigits(d) && d != [] && DecimalValue(d) <= UintMax
    requires dot + 1 + |d| == svend <= |sv|
    requires sv[dot] == '.' && sv[dot + 1..svend] == d
    ensures DotRun(sv, dot, svend) == Conversion(true, DecimalValue(d), svend)
  {
    FromCharsDigits(sv, dot + 1, svend, d);
  }

  /**
    A dotted version that parses up to the first ';' (or the end) is copied
    literally into the version text, `vn` takes its first number, and the
    rest after it is dropped when it is ";0" and goes to the tail step
    otherwise.
   */
  lemma Da2VersionDotted(sv: string, r: Da2Result, svend: nat, dot: nat, n: nat, m: nat)
    requires IndexOf(sv, ';', 0) == svend
    requires FromChars(sv, 0, svend) == Conversion(true, n, dot)
    requires dot < svend && sv[dot] == '.'
    requires DotRun(sv, dot, svend) == Conversion(true, m, svend)
    ensures var r2 := r.(vn := n, version := sv[..svend]);
            Da2Version(sv, r) == if sv[svend..] == ";0" then r2 else Da2Tail(sv[svend..], r2)
  {
  }

  /**
    A dotted version "x.y.z" that runs to the end or to a ';' is copied
    literally into the version text, and a rest of exactly ";0" stops the
    parse before the tail is touched, leaving `vn` at the first number.
   */
  lemma Da2DottedVersion(x: nat, y: nat, z: nat, rest: string, r: Da2Result)
    requires x <= UintMax && y <= UintMax && z <= UintMax
    requires rest == [] || rest[0] == ';'
    ensures Da2Version(Dotted3(x, y, z) + rest, r).version == Dotted3(x, y, z)
    ensures rest == ";0" ==> Da2Version(Dotted3(x, y, z) + rest, r) == r.(vn := x, version := Dotted3(x, y, z))
  {
    DecimalRoundTrip(x);
    DecimalRoundTrip(y);
    DecimalRoundTrip(z);
    Da2DottedDigits(Decimal(x), Decimal(y), Decimal(z), rest, r);
  }

  /** `Da2DottedVersion` for any three runs of digits whose numbers fit. */
  lemma Da2DottedDigits(a: string, b: string, c: string, rest: string, r: Da2Result)
    requires AllDigits(a) && AllDigits(b) && AllDigits(c) && a != [] && b != [] && c != []
    requires DecimalValue(a) <= UintMax && DecimalValue(b) <= UintMax && DecimalValue(c) <= UintMax
    requires rest == [] || rest[0] == ';'
    ensures Da2Version(a + "." + b + "." + c + rest, r).version == a + "." + b + "." + c
    ensures rest == ";0" ==> Da2Version(a + "." + b + "." + c + rest, r) == r.(vn := DecimalValue(a), version := a + "." + b + "." + c)
  {
    var v := a + "." + b + "." + c;
    var sv := v + rest;
    var p1 := |a|;
    var p2 := p1 + 1 + |b|;
    var p3 := p2 + 1 + |c|;
    DottedLayout(a, b, c, rest);
    assert sv[..p3] == v && sv[p3..] == rest;
    FromCharsDigits(sv, 0, p3, a);
    DotRunStep(sv, p1, p3, b);
    DotRunLast(sv, p2, p3, c);
    Da2VersionDotted(sv, r, p3, p1, DecimalValue(a), DecimalValue(c));
  }

  /** Where the pieces of "a.b.c" + rest stand, and that the first ';' is the one after the version. */
  lemma DottedLayout(a: string, b: string, c: string, rest: string)
    requires AllDigits(a) && AllDigits(b) && AllDigits(c)
    requires rest == [] || rest[0] == ';'
    ensures var sv := a + "." + b + "." + c + rest;
            var p1 := |a|;
            var p2 := p1 + 1 + |b|;
            var p3 := p2 + 1 + |c|;
            p3 <= |sv| &&
            sv[0..p1] == a && sv[p1] == '.' && sv[p1 + 1..p2] == b && sv[p2] == '.' && sv[p2 + 1..p3] == c &&
            IndexOf(sv, ';', 0) == p3
  {
    var sv := a + "." + b + "." + c + rest;
    var p1 := |a|;
    var p2 := p1 + 1 + |b|;
    var p3 := p2 + 1 + |c|;
    assert sv[0..p1] == a;
    assert sv[p1 + 1..p2] == b;
    assert sv[p2 + 1..p3] == c;
    forall k | 0 <= k < p3 ensures sv[k] != ';' {
      if k < p1 {
        assert sv[k] == a[k];
      } else if p1 < k < p2 {
        assert sv[k] == b[k - p1 - 1];
      } else if p2 < k {
        assert sv[k] == c[k - p2 - 1];
      }
    }
    IndexOfIs(sv, ';', 0, p3);
  }

  // ---------------------------------------------------------------- placeholders

  /** Every emulation-id prefix opens with a digit. */
  lemma PrefixesStartWithDigit(k: nat)
    requires k < |KnownEmulations|
    ensures IsDigit(KnownEmulations[k].0[0])
  {
  }

  /**
    A reply that does not open with a digit (the `<NO REPLY>` and
    `<NOT ISSUED>` placeholders among them) matches no table entry and
    carries no number: DA1 parsing changes nothing but the final trim, DA2
    parsing changes nothing at all.
   */
  lemma NonNumericReply(reply: string, p: Da1Result, r: Da2Result)
    requires reply != [] && !IsDigit(reply[0])
    ensures ParseDa1(reply, p) == p.(unknown := TrimSemicolon(p.unknown))
    ensures ParseDa2(reply, r) == r
  {
    forall k | 0 <= k < |KnownEmulations| ensures !EntryMatches(reply, true, k) && !EntryMatches(reply, false, k) {
      PrefixesStartWithDigit(k);
      EntryMismatch(reply, true, k, 0);
      EntryMismatch(reply, false, k, 0);
    }
    assert FirstEmulation(reply, true, 0) == |KnownEmulations|;
    assert FirstEmulation(reply, false, 0) == |KnownEmulations|;
    assert !FromChars(reply, 0, |reply|).ok;
    assert !StartsWith(reply, "1;");
    var svend := IndexOf(reply, ';', 0);
    assert !FromChars(reply, 0, svend).ok;
  }

  // ---------------------------------------------------------------- TN

  /** `make_tn_request`'s fix-up: an error echo (DCS "0...") is replaced by "???". */
  function NormaliseTn(reply: string): (r: string)
    ensures r == reply || r == "???"
  {
    if StartsWith(reply, Dcs + "0") then "???" else reply
  }

  /** The fix-up is idempotent and replaces exactly the error echoes. */
  lemma NormaliseTnProperties(reply: string)
    ensures NormaliseTn(NormaliseTn(reply)) == NormaliseTn(reply)
    ensures NormaliseTn(reply) != reply <==> StartsWith(reply, Dcs + "0") && reply != "???"
  {
  }
}
