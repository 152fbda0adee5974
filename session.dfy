/**
  One detection run as a sequence of states: the fields of `info_impl`, the
  fingerprint predicates `is_*`, the requests that overwrite one reply field
  each, the probe schedule of the `info_impl` constructor and the classifier
  that follows it. The log `issued` records every probe sent, in order.
 */
module Session {
  import opened Terminal
  import opened Text
  import opened Tables
  import opened Channel
  import opened Replies
  import opened Names

  /** The members of `info` and `info_impl` a detection run reads and writes. */
  datatype State = State(
    implementation: Implementation,
    implementationVersion: string,
    emulation: Emulation,
    featureSet: set<Feature>,
    unknownFeatures: string,
    raw: string,
    da1Reply: string,
    da2Reply: string,
    da2ReplyTail: string,
    da3Reply: string,
    qReply: string,
    tnReply: string,
    osc702Reply: string,
    da2Alarmed: bool,
    vn: nat,
    da2Emulation: Emulation,
    issued: seq<Probe>)

  /** The default member initialisers: nothing known, no query sent yet. */
  function Fresh(): (s: State)
    ensures s.implementation == Unknown && s.emulation == UnknownEmulation && s.da2Emulation == UnknownEmulation
    ensures s.implementationVersion == [] && s.featureSet == {} && s.unknownFeatures == [] && s.raw == []
    ensures s.da1Reply == NotIssuedText && s.da2Reply == NotIssuedText && s.da3Reply == NotIssuedText
    ensures s.qReply == NotIssuedText && s.tnReply == NotIssuedText && s.osc702Reply == NotIssuedText
    ensures s.da2ReplyTail == [] && !s.da2Alarmed && s.vn == 0 && s.issued == []
  {
    State(Unknown, [], UnknownEmulation, {}, [], [],
          NotIssuedText, NotIssuedText, [], NotIssuedText, NotIssuedText, NotIssuedText, NotIssuedText,
          false, 0, UnknownEmulation, [])
  }

  // ------------------------------------------------------------ predicates

  const VteDa3Id: string := "7E565445"
  const FootDa3Id: string := "464f4f54"
  const KittyTnId: string := "787465726d2d6b69747479"

  predicate IsSt(s: State)
  {
    if s.implementation != Unknown then s.implementation == St
    else s.da1Reply == "6" && s.da2Alarmed
  }

  predicate IsAlacritty(s: State)
  {
    if s.implementation != Unknown then s.implementation == Alacritty
    else if |s.da2Reply| < 5 then false
    else
      var c := FromChars(s.da2Reply, 2, |s.da2Reply|);
      c.ok && |s.da2Reply| - c.stop == 2 && s.da1Reply == "6"
      && StartsWith(s.da2Reply, "0;") && EndsWith(s.da2Reply, ";1")
  }

  predicate IsVte(s: State)
  {
    if s.implementation != Unknown then s.implementation == Vte
    else s.da3Reply == VteDa3Id
  }

  /** Not the negation of `IsVte`: true only when the evidence so far rules VTE out. */
  predicate IsNotVte(s: State)
  {
    if s.implementation != Unknown then s.implementation != Vte
    else !StartsWith(s.da1Reply, "65;") || !StartsWith(s.da2Reply, "65;") || CaptureContour in s.featureSet
  }

  predicate IsRxvt(s: State)
  {
    if s.implementation != Unknown then s.implementation == Rxvt
    else StartsWith(s.da2Reply, "85;") || StartsWith(s.da2Reply, "82;")
  }

  predicate IsMrxvt(s: State)
  {
    if s.implementation != Unknown then s.implementation == Mrxvt
    else s.implementationVersion != [] && (StartsWith(s.da2Reply, "85;") || StartsWith(s.da2Reply, "82;"))
  }

  predicate IsKitty(s: State)
  {
    if s.implementation != Unknown then s.implementation == Kitty
    else s.tnReply == KittyTnId
  }

  predicate IsXterm(s: State)
  {
    if s.implementation != Unknown then s.implementation == Xterm
    else StartsWith(s.qReply, "XTerm")
  }

  predicate IsContour(s: State)
  {
    if s.implementation != Unknown then s.implementation == Contour
    else StartsWith(s.qReply, "contour")
  }

  predicate IsTerminology(s: State)
  {
    if s.implementation != Unknown then s.implementation == Terminology
    else StartsWith(s.qReply, "terminology")
  }

  predicate IsKonsole(s: State)
  {
    if s.implementation != Unknown then s.implementation == Konsole
    else StartsWith(s.qReply, "Konsole")
  }

  /** Unlike the others, decided by the implementation field alone. */
  predicate IsEterm(s: State)
  {
    s.implementation == Eterm
  }

  predicate IsQt5(s: State)
  {
    if s.implementation != Unknown then s.implementation == Qt5
    else s.da2Emulation == Vt100 && s.emulation == Vt100Avo
  }

  predicate IsGhostty(s: State)
  {
    if s.implementation != Unknown then s.implementation == Ghostty
    else StartsWith(s.qReply, "ghostty")
  }

  /**
    Once the implementation is fixed, every predicate answers from it alone,
    whatever the replies say.
   */
  lemma PredicatesOnceFixed(s: State, t: State)
    requires s.implementation != Unknown && t.implementation == s.implementation
    ensures IsSt(s) == IsSt(t) == (s.implementation == St)
    ensures IsAlacritty(s) == IsAlacritty(t) == (s.implementation == Alacritty)
    ensures IsVte(s) == IsVte(t) == (s.implementation == Vte)
    ensures IsNotVte(s) == IsNotVte(t) == (s.implementation != Vte)
    ensures IsRxvt(s) == IsRxvt(t) == (s.implementation == Rxvt)
    ensures IsMrxvt(s) == IsMrxvt(t) == (s.implementation == Mrxvt)
    ensures IsKitty(s) == IsKitty(t) == (s.implementation == Kitty)
    ensures IsXterm(s) == IsXterm(t) == (s.implementation == Xterm)
    ensures IsContour(s) == IsContour(t) == (s.implementation == Contour)
    ensures IsTerminology(s) == IsTerminology(t) == (s.implementation == Terminology)
    ensures IsKonsole(s) == IsKonsole(t) == (s.implementation == Konsole)
    ensures IsEterm(s) == IsEterm(t) == (s.implementation == Eterm)
    ensures IsQt5(s) == IsQt5(t) == (s.implementation == Qt5)
    ensures IsGhostty(s) == IsGhostty(t) == (s.implementation == Ghostty)
  {
  }

  /** The DA2 shape of Alacritty: "0;VERSION;1" with a one-digit DA1 reply "6". */
  lemma AlacrittyShape(version: nat, s: State)
    requires version <= UintMax && s.implementation == Unknown
    requires s.da1Reply == "6" && s.da2Reply == "0;" + Decimal(version) + ";1"
    ensures IsAlacritty(s)
  {
    var d := s.da2Reply;
    var v := Decimal(version);
    assert d[2..2 + |v|] == v;
    FromCharsDecimal(d, 2, |d|, version);
    assert d[..2] == "0;";
    assert d[|d| - 2..] == ";1";
  }

  // ------------------------------------------------------------ requests

  /** The reply field a probe writes. */
  function ReplyOf(s: State, p: Probe): string
  {
    match p
    case Da1 => s.da1Reply
    case Da2 => s.da2Reply
    case Da3 => s.da3Reply
    case Q => s.qReply
    case Tn => s.tnReply
    case Osc702 => s.osc702Reply
  }

  function WithReply(s: State, p: Probe, v: string): (t: State)
    ensures ReplyOf(t, p) == v
    ensures forall p' :: p' != p ==> ReplyOf(t, p') == ReplyOf(s, p')
  {
    match p
    case Da1 => s.(da1Reply := v)
    case Da2 => s.(da2Reply := v)
    case Da3 => s.(da3Reply := v)
    case Q => s.(qReply := v)
    case Tn => s.(tnReply := v)
    case Osc702 => s.(osc702Reply := v)
  }

  /** `parse_da1` applied to the state. */
  function AfterDa1(s: State): State
  {
    var r := ParseDa1(s.da1Reply, Da1Result(s.emulation, s.featureSet, s.unknownFeatures));
    s.(emulation := r.emulation, featureSet := r.features, unknownFeatures := r.unknown)
  }

  /** `parse_da2` applied to the state. */
  function AfterDa2(s: State): State
  {
    var r := ParseDa2(s.da2Reply, Da2Result(s.emulation, s.da2Emulation, s.vn, s.implementationVersion, s.da2ReplyTail));
    s.(emulation := r.emulation, da2Emulation := r.da2Emulation, vn := r.vn,
       implementationVersion := r.version, da2ReplyTail := r.tail)
  }

  /**
    `make_request` for probe `p` and the fix-up its `make_X_request`
    applies to the stored reply: the exchange overwrites that probe's reply
    field (or keeps it, on the paths that keep it), the TN error echo is
    normalised, and the probe is logged. DA1 and DA2 are then parsed, by
    `IssueDa1` and `IssueDa2`.
   */
  function Issue(s: State, p: Probe, o: Oracle): (t: State)
    ensures t.issued == s.issued + [p]
    ensures t.implementation == s.implementation && t.da2Alarmed == s.da2Alarmed && t.raw == s.raw
    ensures forall p' :: p' != p ==> ReplyOf(t, p') == ReplyOf(s, p')
    ensures t.emulation == s.emulation && t.featureSet == s.featureSet && t.implementationVersion == s.implementationVersion
  {
    var ex := Exchange(ReplyOf(s, p), p, o.AnswerTo(p));
    var s1 := WithReply(s, p, ex.reply).(issued := s.issued + [p]);
    if p == Tn then s1.(tnReply := NormaliseTn(s1.tnReply)) else s1
  }

  /** `make_da1_request`: the exchange, then `parse_da1`. */
  function IssueDa1(s: State, o: Oracle): (t: State)
    ensures t.issued == s.issued + [Da1]
    ensures t.implementation == s.implementation && t.da2Alarmed == s.da2Alarmed
    ensures forall p :: ReplyOf(t, p) == ReplyOf(Issue(s, Da1, o), p)
  {
    AfterDa1(Issue(s, Da1, o))
  }

  /** `make_da2_request`: the exchange, then `parse_da2`. */
  function IssueDa2(s: State, o: Oracle): (t: State)
    ensures t.issued == s.issued + [Da2]
    ensures t.implementation == s.implementation && t.da2Alarmed == s.da2Alarmed
    ensures forall p :: ReplyOf(t, p) == ReplyOf(Issue(s, Da2, o), p)
  {
    AfterDa2(Issue(s, Da2, o))
  }

  /** A request stores exactly what the exchange delivers (normalised for TN). */
  lemma IssueStores(s: State, p: Probe, o: Oracle)
    ensures var r := Exchange(ReplyOf(s, p), p, o.AnswerTo(p)).reply;
            ReplyOf(Issue(s, p, o), p) == if p == Tn then NormaliseTn(r) else r
  {
  }

  /**
    A probe issued twice keeps only the later answer: when the second
    exchange delivers data, the first one leaves no trace in the field.
   */
  lemma LaterReplyWins(s: State, t: State, p: Probe, o: Oracle)
    requires p in {Q, Tn, Da3}
    requires o.AnswerTo(p).Data? && o.AnswerTo(p).bytes != []
    ensures ReplyOf(Issue(Issue(s, p, o), p, o), p) == ReplyOf(Issue(t, p, o), p)
  {
  }

  // ------------------------------------------------------------ schedule

  /** The start of the constructor: DA2 (its failure recorded as `da2_alarmed`), then DA1. */
  function Opening(o: Oracle): (s: State)
    ensures s.issued == [Da2, Da1]
    ensures s.da2Alarmed == Exchange(NotIssuedText, Da2, o.da2).failed
    ensures s.implementation == Unknown
    ensures s.da3Reply == NotIssuedText && s.tnReply == NotIssuedText && s.qReply == NotIssuedText
    ensures s.osc702Reply == NotIssuedText
  {
    var s0 := Fresh();
    var s1 := IssueDa2(s0, o).(da2Alarmed := Exchange(s0.da2Reply, Da2, o.da2).failed);
    IssueDa1(s1, o)
  }

  /**
    The Eterm/Emacs Term guard: when neither DA request was answered, a
    `TERM` starting with "eterm" means Emacs Term and exactly "Eterm" means
    Eterm, both with a VT100 emulation.
   */
  function TermGuard(s: State, term: Option<string>): (t: State)
    ensures t.issued == s.issued && forall p :: ReplyOf(t, p) == ReplyOf(s, p)
    ensures t.implementationVersion == s.implementationVersion && t.da2Alarmed == s.da2Alarmed
    ensures t.implementation == s.implementation || t.implementation in {EmacsTerm, Eterm}
    ensures t == s.(implementation := t.implementation, emulation := t.emulation)
  {
    if s.da1Reply == NoReplyText && s.da2Reply == NoReplyText then
      if term.Some? && StartsWith(term.value, "eterm") then s.(implementation := EmacsTerm, emulation := Vt100)
      else if term == Some("Eterm") then s.(implementation := Eterm, emulation := Vt100)
      else s
    else s
  }

  /** Evidence that is conclusive after DA1 and DA2: no further probe is sent. */
  predicate Conclusive(s: State)
  {
    IsSt(s) || IsAlacritty(s) || IsEterm(s) || IsQt5(s)
  }

  /**
    `t` continues the run `s`: the log only grows, by at most `n` probes,
    none of them OSC702 unless `osc` allows it; the implementation and the
    DA2 alarm are left alone.
   */
  predicate Continues(s: State, t: State, n: nat, osc: bool)
  {
    |s.issued| <= |t.issued| <= |s.issued| + n && t.issued[..|s.issued|] == s.issued
    && (!osc ==> (forall i :: |s.issued| <= i < |t.issued| ==> t.issued[i] != Osc702) && t.osc702Reply == s.osc702Reply)
    && t.implementation == s.implementation && t.da2Alarmed == s.da2Alarmed
  }

  /** One more probe continues a run, by one more entry of the log. */
  lemma IssueContinues(s: State, t: State, n: nat, osc: bool, p: Probe, o: Oracle)
    requires Continues(s, t, n, osc)
    requires osc || p != Osc702
    ensures Continues(s, Issue(t, p, o), n + 1, osc)
  {
    var u := Issue(t, p, o);
    assert u.issued == t.issued + [p];
    assert u.issued[..|s.issued|] == t.issued[..|s.issued|];
  }

  /** First block: Q unless VTE is possible or rxvt is seen, then TN unless Q (or DA2) already tells. */
  function QuestionBlock(s: State, o: Oracle): (t: State)
    ensures Continues(s, t, 2, false)
    ensures IsNotVte(s) && !IsRxvt(s) <==> |t.issued| > |s.issued|
  {
    if IsNotVte(s) && !IsRxvt(s) then
      IssueContinues(s, s, 0, false, Q, o);
      var s1 := Issue(s, Q, o);
      IssueContinues(s, s1, 1, false, Tn, o);
      if !IsRxvt(s1) && !IsXterm(s1) && !IsContour(s1) && !IsTerminology(s1) && !IsKonsole(s1)
      then Issue(s1, Tn, o) else s1
    else s
  }

  /** Second block: DA3 unless kitty or rxvt, then Q and TN again when VTE is now ruled out. */
  function Da3Block(s: State, o: Oracle): (t: State)
    ensures Continues(s, t, 3, false)
    ensures !IsKitty(s) && !IsRxvt(s) <==> |t.issued| > |s.issued|
  {
    if !IsKitty(s) && !IsRxvt(s) then
      IssueContinues(s, s, 0, false, Da3, o);
      var s1 := Issue(s, Da3, o);
      if IsNotVte(s1) && !IsVte(s1) && !IsXterm(s1) && !IsKonsole(s1) then
        IssueContinues(s, s1, 1, false, Q, o);
        var s2 := Issue(s1, Q, o);
        IssueContinues(s, s2, 2, false, Tn, o);
        if !IsTerminology(s2) && !IsGhostty(s2) then Issue(s2, Tn, o) else s2
      else s1
    else s
  }

  /** Third block: unless kitty or mrxvt, DA3 (not for rxvt or ghostty), then OSC702 while DA3 holds no reply. */
  function Osc702Block(s: State, o: Oracle): (t: State)
    ensures Continues(s, t, 2, true)
  {
    if !IsKitty(s) && !IsMrxvt(s) then
      IssueContinues(s, s, 0, true, Da3, o);
      var s1 := if !IsRxvt(s) && !IsGhostty(s) then Issue(s, Da3, o) else s;
      IssueContinues(s, s1, 1, true, Osc702, o);
      if s1.da3Reply == NotIssuedText then Issue(s1, Osc702, o) else s1
    else s
  }

  /** In the third block OSC702 comes last, once, and only while DA3 holds no reply. */
  lemma Osc702BlockLast(s: State, o: Oracle)
    ensures var t := Osc702Block(s, o);
            Osc702 in t.issued[|s.issued|..] ==>
              t.issued[|t.issued| - 1] == Osc702 && Osc702 !in t.issued[|s.issued|..|t.issued| - 1]
              && t.da3Reply == NotIssuedText
  {
    var t := Osc702Block(s, o);
    if !IsKitty(s) && !IsMrxvt(s) {
      if !IsRxvt(s) && !IsGhostty(s) {
        var s1 := Issue(s, Da3, o);
        assert s1.issued[|s.issued|..] == [Da3];
        if s1.da3Reply == NotIssuedText {
          assert t.issued[|s.issued|..] == [Da3, Osc702];
        }
      } else if s.da3Reply == NotIssuedText {
        assert t.issued[|s.issued|..] == [Osc702];
      } else {
        assert t.issued[|s.issued|..] == [];
      }
    } else {
      assert t.issued[|s.issued|..] == [];
    }
  }

  /** rxvt (not mrxvt, not kitty) with DA3 unanswered always gets the OSC702 probe. */
  lemma Osc702BlockRxvt(s: State, o: Oracle)
    requires !IsKitty(s) && !IsMrxvt(s) && IsRxvt(s) && s.da3Reply == NotIssuedText
    ensures |Osc702Block(s, o).issued| > |s.issued|
  {
  }

  /** The probe schedule after DA1/DA2. */
  function Schedule(s: State, o: Oracle): (t: State)
    ensures Continues(s, t, 7, true)
  {
    if !IsSt(s) && !IsAlacritty(s) && !IsEterm(s) && !IsQt5(s)
    then Osc702Block(Da3Block(QuestionBlock(s, o), o), o)
    else s
  }

  /** The state the schedule starts from: DA2 and DA1 sent, the `TERM` guard applied. */
  function Guarded(o: Oracle, term: Option<string>): (s: State)
    ensures s.issued == [Da2, Da1]
    ensures s.implementation in {Unknown, EmacsTerm, Eterm}
    ensures s.da3Reply == NotIssuedText && s.tnReply == NotIssuedText && s.qReply == NotIssuedText
    ensures s.osc702Reply == NotIssuedText
  {
    TermGuard(Opening(o), term)
  }

  /** All probing of the constructor, with `TERM` passed in. */
  function Probed(o: Oracle, term: Option<string>): (t: State)
    ensures 2 <= |t.issued| <= 9 && t.issued[..2] == [Da2, Da1]
  {
    Schedule(Guarded(o, term), o)
  }

  /**
    Probing stops after DA1 and DA2 exactly when their evidence is
    conclusive (st, Alacritty, Eterm, Qt5) or shows mrxvt.
   */
  lemma StopsAfterOpening(o: Oracle, term: Option<string>)
    ensures var s := Guarded(o, term);
            |Probed(o, term).issued| == 2 <==> Conclusive(s) || IsMrxvt(s)
  {
    StopsWhen(Guarded(o, term), o);
  }

  /** The schedule sends nothing exactly when the evidence is conclusive or shows mrxvt, before any TN or DA3. */
  lemma StopsWhen(s: State, o: Oracle)
    requires s.da3Reply == NotIssuedText && s.tnReply == NotIssuedText
    requires s.implementation in {Unknown, EmacsTerm, Eterm}
    ensures |Schedule(s, o).issued| == |s.issued| <==> Conclusive(s) || IsMrxvt(s)
  {
    if !Conclusive(s) {
      var s1 := QuestionBlock(s, o);
      if IsRxvt(s) {
        assert s1 == s;
        var s2 := Da3Block(s1, o);
        assert s2 == s;
        if !IsMrxvt(s) {
          assert !IsKitty(s);
          Osc702BlockRxvt(s, o);
        }
      } else if !IsNotVte(s) {
        assert s1 == s && !IsKitty(s);
        assert |Da3Block(s1, o).issued| > |s.issued|;
      }
    }
  }

  /** OSC702, if sent, was sent once and last, and DA3 then held (and holds) no reply. */
  predicate Osc702SentLast(t: State)
  {
    Osc702 in t.issued ==>
      t.issued[|t.issued| - 1] == Osc702 && Osc702 !in t.issued[..|t.issued| - 1] && t.da3Reply == NotIssuedText
  }

  /**
    OSC702 is sent at most once, as the last probe, and only when DA3 has
    produced no reply, which is then still the case at the end of probing.
   */
  lemma Osc702Last(o: Oracle, term: Option<string>)
    ensures Osc702SentLast(Probed(o, term))
  {
    ScheduleOsc702(Guarded(o, term), o);
  }

  lemma ScheduleOsc702(s: State, o: Oracle)
    requires Osc702 !in s.issued
    ensures Osc702SentLast(Schedule(s, o))
  {
    if !Conclusive(s) {
      var s1 := QuestionBlock(s, o);
      var s2 := Da3Block(s1, o);
      NoOsc702Yet(s, s1, 2);
      NoOsc702Yet(s1, s2, 3);
      Osc702BlockLast(s2, o);
      Osc702LastFrom(s2, Osc702Block(s2, o));
    }
  }

  lemma Osc702LastFrom(s: State, t: State)
    requires Osc702 !in s.issued && Continues(s, t, 2, true)
    requires Osc702 in t.issued[|s.issued|..] ==>
               t.issued[|t.issued| - 1] == Osc702 && Osc702 !in t.issued[|s.issued|..|t.issued| - 1]
               && t.da3Reply == NotIssuedText
    ensures Osc702SentLast(t)
  {
    assert t.issued == s.issued + t.issued[|s.issued|..];
    if Osc702 in t.issued {
      assert t.issued[..|t.issued| - 1] == s.issued + t.issued[|s.issued|..|t.issued| - 1];
    }
  }

  lemma NoOsc702Yet(s: State, t: State, n: nat)
    requires Osc702 !in s.issued && Continues(s, t, n, false)
    ensures Osc702 !in t.issued
  {
    forall i | 0 <= i < |t.issued| ensures t.issued[i] != Osc702 {
      if i < |s.issued| {
        assert t.issued[i] == t.issued[..|s.issued|][i];
      }
    }
  }

  // ------------------------------------------------------------ classifier

  /** The implementation chosen by the fixed-priority chain (the field is kept when nothing matches). */
  function Identify(s: State): (i: Implementation)
    ensures i == s.implementation
            || i in {St, Vte, Foot, Terminology, Contour, Xterm, Mrxvt, Rxvt, Kitty, Alacritty, Konsole, Qt5, Ghostty}
  {
    if IsSt(s) then St
    else if s.da3Reply == VteDa3Id then Vte
    else if s.da3Reply == FootDa3Id then Foot
    else if IsTerminology(s) then Terminology
    else if IsContour(s) then Contour
    else if IsXterm(s) then Xterm
    else if IsMrxvt(s) then Mrxvt
    else if StartsWith(s.osc702Reply, "rxvt") then Rxvt
    else if IsKitty(s) then Kitty
    else if IsAlacritty(s) then Alacritty
    else if IsKonsole(s) then Konsole
    else if IsQt5(s) then Qt5
    else if IsGhostty(s) then Ghostty
    else s.implementation
  }

  /** The classification rules, highest priority first, as (evidence, verdict) pairs. */
  function Rules(s: State): (rules: seq<(bool, Implementation)>)
    ensures |rules| == 13
  {
    [(IsSt(s), St), (s.da3Reply == VteDa3Id, Vte), (s.da3Reply == FootDa3Id, Foot),
     (IsTerminology(s), Terminology), (IsContour(s), Contour), (IsXterm(s), Xterm), (IsMrxvt(s), Mrxvt),
     (StartsWith(s.osc702Reply, "rxvt"), Rxvt), (IsKitty(s), Kitty), (IsAlacritty(s), Alacritty),
     (IsKonsole(s), Konsole), (IsQt5(s), Qt5), (IsGhostty(s), Ghostty)]
  }

  /** The verdict of the first rule whose evidence holds. */
  function FirstRule(rules: seq<(bool, Implementation)>, otherwise: Implementation): (i: Implementation)
    ensures (forall k :: 0 <= k < |rules| ==> !rules[k].0) ==> i == otherwise
  {
    if rules == [] then otherwise
    else if rules[0].0 then rules[0].1
    else
      var i := FirstRule(rules[1..], otherwise);
      assert forall k :: 1 <= k < |rules| ==> rules[k] == rules[1..][k - 1];
      i
  }

  /** A rule decides when its evidence holds and no rule before it fires. */
  lemma {:induction false} FirstRuleAt(rules: seq<(bool, Implementation)>, k: nat, otherwise: Implementation)
    requires k < |rules| && rules[k].0
    requires forall j :: 0 <= j < k ==> !rules[j].0
    ensures FirstRule(rules, otherwise) == rules[k].1
  {
    if k > 0 {
      var rest := rules[1..];
      assert rest[k - 1] == rules[k];
      forall j | 0 <= j < k - 1 ensures !rest[j].0 {
        assert rest[j] == rules[j + 1];
      }
      FirstRuleAt(rest, k - 1, otherwise);
    }
  }

  /**
    The first-match rule over thirteen pieces of evidence in the priority
    order of `Identify`, as a nested choice.
   */
  lemma PriorityChain(b: seq<bool>, otherwise: Implementation)
    requires |b| == 13
    ensures var rules := [(b[0], St), (b[1], Vte), (b[2], Foot), (b[3], Terminology), (b[4], Contour),
                          (b[5], Xterm), (b[6], Mrxvt), (b[7], Rxvt), (b[8], Kitty), (b[9], Alacritty),
                          (b[10], Konsole), (b[11], Qt5), (b[12], Ghostty)];
            FirstRule(rules, otherwise)
              == if b[0] then St else if b[1] then Vte else if b[2] then Foot else if b[3] then Terminology
                 else if b[4] then Contour else if b[5] then Xterm else if b[6] then Mrxvt else if b[7] then Rxvt
                 else if b[8] then Kitty else if b[9] then Alacritty else if b[10] then Konsole
                 else if b[11] then Qt5 else if b[12] then Ghostty else otherwise
  {
    var rules := [(b[0], St), (b[1], Vte), (b[2], Foot), (b[3], Terminology), (b[4], Contour),
                  (b[5], Xterm), (b[6], Mrxvt), (b[7], Rxvt), (b[8], Kitty), (b[9], Alacritty),
                  (b[10], Konsole), (b[11], Qt5), (b[12], Ghostty)];
    var k := 0;
    while k < 13 && !b[k]
      invariant 0 <= k <= 13
      invariant forall j :: 0 <= j < k ==> !b[j]
    {
      k := k + 1;
    }
    if k < 13 {
      FirstRuleAt(rules, k, otherwise);
    }
  }

  /** The if-chain is the first-match rule over the priority list. */
  lemma IdentifyByRules(s: State)
    ensures Identify(s) == FirstRule(Rules(s), s.implementation)
  {
    PriorityChain([IsSt(s), s.da3Reply == VteDa3Id, s.da3Reply == FootDa3Id, IsTerminology(s),
                   IsContour(s), IsXterm(s), IsMrxvt(s), StartsWith(s.osc702Reply, "rxvt"),
                   IsKitty(s), IsAlacritty(s), IsKonsole(s), IsQt5(s), IsGhostty(s)], s.implementation);
  }

  /** Classifying again changes nothing: the verdict is stable once written back. */
  lemma IdentifyIdempotent(s: State)
    ensures Identify(s.(implementation := Identify(s))) == Identify(s)
  {
  }

  /** The version renders as "M", "M.m" or "M.m.p", leaving out zero trailing parts. */
  function FormatVersion(vn: nat): (v: string)
    ensures v != []
  {
    if vn % 10000 == 0 then Decimal(vn / 10000)
    else if vn % 100 == 0 then Decimal(vn / 10000) + "." + Decimal((vn / 100) % 100)
    else Decimal(vn / 10000) + "." + Decimal((vn / 100) % 100) + "." + Decimal(vn % 100)
  }

  /** The number a field of digits denotes (0 for anything else). */
  function FieldValue(f: string): nat
  {
    if AllDigits(f) then DecimalValue(f) else 0
  }

  /** Reads a rendered version back: up to three dot-separated numbers, weighted 10000, 100 and 1. */
  function VersionValue(v: string): nat
  {
    var i := IndexOf(v, '.', 0);
    var major := FieldValue(v[..i]);
    if i == |v| then major * 10000
    else
      var j := IndexOf(v, '.', i + 1);
      var minor := FieldValue(v[i + 1..j]);
      if j == |v| then major * 10000 + minor * 100
      else major * 10000 + minor * 100 + FieldValue(v[j + 1..])
  }

  /** The rendering loses nothing: reading it back gives the version number. */
  lemma FormatVersionRoundTrip(vn: nat)
    ensures VersionValue(FormatVersion(vn)) == vn
  {
    VersionParts(vn);
    if vn % 10000 == 0 {
      var v := FormatVersion(vn);
      assert v[0..|v|] == v[..|v|] == v;
      DigitsThenDot(v, 0, v);
      DecimalRoundTrip(vn / 10000);
    } else if vn % 100 == 0 {
      TwoPartRoundTrip(vn / 10000, (vn / 100) % 100);
    } else {
      ThreePartRoundTrip(vn / 10000, (vn / 100) % 100, vn % 100);
    }
  }

  /** The three parts of a version number, weighted 10000, 100 and 1. */
  lemma VersionParts(vn: nat)
    ensures vn == (vn / 10000) * 10000 + ((vn / 100) % 100) * 100 + vn % 100
    ensures vn % 10000 == 0 ==> (vn / 100) % 100 == 0 && vn % 100 == 0
  {
    var q, p := vn / 100, vn % 100;
    var major, minor := q / 100, q % 100;
    assert vn == q * 100 + p;
    assert q == major * 100 + minor;
    assert vn == major * 10000 + (minor * 100 + p);
    assert vn / 10000 == major;
    assert vn % 10000 == minor * 100 + p;
  }

  lemma TwoPartRoundTrip(major: nat, minor: nat)
    ensures VersionValue(Decimal(major) + "." + Decimal(minor)) == major * 10000 + minor * 100
  {
    TwoFields(Decimal(major), Decimal(minor));
    DecimalRoundTrip(major);
    DecimalRoundTrip(minor);
  }

  lemma ThreePartRoundTrip(major: nat, minor: nat, patch: nat)
    ensures VersionValue(Decimal(major) + "." + Decimal(minor) + "." + Decimal(patch))
         == major * 10000 + minor * 100 + patch
  {
    ThreeFields(Decimal(major), Decimal(minor), Decimal(patch));
    DecimalRoundTrip(major);
    DecimalRoundTrip(minor);
    DecimalRoundTrip(patch);
  }

  /** No dot inside a field of digits: the search from `at` passes over all of `d`. */
  lemma DigitsThenDot(v: string, at: nat, d: string)
    requires AllDigits(d) && at + |d| <= |v| && v[at..at + |d|] == d
    requires at + |d| < |v| ==> v[at + |d|] == '.'
    ensures IndexOf(v, '.', at) == at + |d|
  {
    forall k | at <= k < at + |d| ensures v[k] != '.' {
      assert v[k] == d[k - at];
      assert IsDigit(d[k - at]);
    }
    IndexOfIs(v, '.', at, at + |d|);
  }

  lemma TwoFields(a: string, b: string)
    requires AllDigits(a) && AllDigits(b)
    ensures VersionValue(a + "." + b) == FieldValue(a) * 10000 + FieldValue(b) * 100
  {
    var v := a + "." + b;
    assert v[0..|a|] == v[..|a|] == a;
    DigitsThenDot(v, 0, a);
    assert v[|a| + 1..|v|] == v[|a| + 1..] == b;
    DigitsThenDot(v, |a| + 1, b);
  }

  lemma ThreeFields(a: string, b: string, c: string)
    requires AllDigits(a) && AllDigits(b) && AllDigits(c)
    ensures VersionValue(a + "." + b + "." + c) == FieldValue(a) * 10000 + FieldValue(b) * 100 + FieldValue(c)
  {
    var v := a + "." + b + "." + c;
    var i, j := |a|, |a| + 1 + |b|;
    assert v[0..i] == v[..i] == a;
    DigitsThenDot(v, 0, a);
    assert v[i + 1..j] == b;
    DigitsThenDot(v, i + 1, b);
    assert v[j + 1..] == c;
    VersionValueAt(v, i, j);
  }

  /** `VersionValue` once both dots are located. */
  lemma VersionValueAt(v: string, i: nat, j: nat)
    requires i < |v| && IndexOf(v, '.', 0) == i
    requires i + 1 <= j < |v| && IndexOf(v, '.', i + 1) == j
    ensures VersionValue(v) == FieldValue(v[..i]) * 10000 + FieldValue(v[i + 1..j]) * 100 + FieldValue(v[j + 1..])
  {
  }

  /**
    The family-specific reading of `vn` in 32-bit `unsigned` arithmetic:
    rxvt's two digits are major and minor, kitty adds 4000 to its first
    number, xterm has a single number, VTE's last two digits are dropped.
   */
  function ScaledVersion(s: State): (v: nat)
    ensures s.vn <= UintMax ==> v <= UintMax
  {
    if IsRxvt(s) then Wrap(Wrap((s.vn / 10) * 10000) + (s.vn % 10) * 100)
    else if IsKitty(s) && s.vn > 400000 then Wrap((s.vn - 400000) * 100)
    else if IsXterm(s) then Wrap(s.vn * 10000)
    else if IsVte(s) then s.vn / 100
    else s.vn
  }

  /** The replies that `substr` reads must be long enough (the source asserts and throws otherwise). */
  predicate VersionReadable(s: State)
  {
    s.implementationVersion == [] ==>
      (IsTerminology(s) ==> |s.qReply| >= 12) && (!IsTerminology(s) && IsKonsole(s) ==> |s.qReply| >= 8)
  }

  /**
    The version step: only when DA2 gave no version text, terminology and
    Konsole take it from the Q reply, kitty from "kitty(...)", and every
    other family renders its scaled `vn`.
   */
  function VersionStep(s: State): (t: State)
    requires VersionReadable(s)
    ensures t == s.(implementationVersion := t.implementationVersion, vn := t.vn)
    ensures s.implementationVersion != [] ==> t == s
  {
    if s.implementationVersion != [] then s
    else if IsTerminology(s) then s.(implementationVersion := s.qReply[12..])
    else if IsKonsole(s) then s.(implementationVersion := s.qReply[8..])
    else if IsKitty(s) && StartsWith(s.qReply, "kitty(") && EndsWith(s.qReply, ")") && |s.qReply| > 7
    then s.(implementationVersion := s.qReply[6..|s.qReply| - 1])
    else
      var vn := ScaledVersion(s);
      s.(vn := vn, implementationVersion := FormatVersion(vn))
  }

  /** Alacritty says only VT100 in DA2; its DA1 reply, read as a prefix, gives the real level. */
  function AlacrittyEmulation(s: State): (t: State)
    ensures t == s.(emulation := t.emulation)
  {
    if IsAlacritty(s) && s.emulation == Vt100 then
      var k := FirstEmulation(s.da1Reply + ";", false, 0);
      if k < |KnownEmulations| then s.(emulation := KnownEmulations[k].1) else s
    else s
  }

  /** Features no reply announces: desktop notifications for kitty, line markers for contour, DECSTBM always. */
  function ForcedFeatures(s: State): (t: State)
    ensures t == s.(featureSet := t.featureSet)
    ensures t.featureSet == s.featureSet + {Decstbm}
                            + (if IsKitty(s) then {DesktopNotification} else {})
                            + (if IsContour(s) then {VertLineMarkers} else {})
  {
    var f1 := if IsKitty(s) then s.featureSet + {DesktopNotification} else s.featureSet;
    var f2 := if IsContour(s) then f1 + {VertLineMarkers} else f1;
    s.(featureSet := f2 + {Decstbm})
  }

  /**
    The first two steps of the classifier: the `raw` line is written and
    the implementation identified (identification does not read `raw`).
   */
  function Identified(s: State): (t: State)
    ensures t == s.(raw := t.raw, implementation := Identify(s))
  {
    s.(raw := Raw(s.tnReply, s.da1Reply, s.da2Reply, s.da3Reply, s.osc702Reply, s.qReply), implementation := Identify(s))
  }

  /** The state the classifier can run on: the substr reads after identification are in range. */
  predicate Classifiable(s: State)
  {
    VersionReadable(Identified(s))
  }

  /** Everything after the probes: `raw`, the implementation, its version, the emulation fix-up, forced features. */
  function Classify(s: State): (t: State)
    requires Classifiable(s)
    ensures t.issued == s.issued && s.featureSet <= t.featureSet && Decstbm in t.featureSet
  {
    ForcedFeatures(AlacrittyEmulation(VersionStep(Identified(s))))
  }

  /** The check the constructor asserts right after the OSC702 request: rxvt must have answered it. */
  predicate RxvtAnswered(s: State)
  {
    Osc702 in s.issued ==> !IsRxvt(s) || StartsWith(s.osc702Reply, "rxvt")
  }

  /** A whole run, for a terminal that was opened. */
  function Detect(o: Oracle, term: Option<string>): (t: State)
    requires RxvtAnswered(Probed(o, term)) && Classifiable(Probed(o, term))
    ensures t.issued == Probed(o, term).issued && Decstbm in t.featureSet
  {
    Classify(Probed(o, term))
  }

  /**
    What the classifier promises: `raw` lists the replies, the
    implementation is the first matching rule, the replies and the probe
    log are kept, a version DA2 already gave is kept, and the feature set
    only gains DECSTBM and at most the two forced features.
   */
  lemma ClassifyProperties(s: State)
    requires Classifiable(s)
    ensures var t := Classify(s);
            && t.raw == Raw(s.tnReply, s.da1Reply, s.da2Reply, s.da3Reply, s.osc702Reply, s.qReply)
            && t.implementation == FirstRule(Rules(s), s.implementation)
            && t.issued == s.issued && (forall p :: ReplyOf(t, p) == ReplyOf(s, p))
            && (s.implementationVersion != [] ==> t.implementationVersion == s.implementationVersion)
            && Decstbm in t.featureSet
            && s.featureSet <= t.featureSet <= s.featureSet + {Decstbm, DesktopNotification, VertLineMarkers}
  {
    IdentifyByRules(s);
    var s2 := Identified(s);
    var s4 := AlacrittyEmulation(VersionStep(s2));
    assert Classify(s) == ForcedFeatures(s4);
  }

  /** Without version text, and outside the families that read the Q reply, the version is the scaled `vn`, rendered. */
  lemma RenderedVersion(s: State)
    requires s.implementationVersion == [] && !IsTerminology(s) && !IsKonsole(s)
    requires !(IsKitty(s) && StartsWith(s.qReply, "kitty("))
    ensures VersionReadable(s) && VersionStep(s).implementationVersion == FormatVersion(ScaledVersion(s))
  {
  }

  /** Scaled versions as the examples below render them. */
  lemma RxvtVersionText()
    ensures FormatVersion(90500) == "9.5"
  {
    assert 90500 % 10000 == 500 && 90500 % 100 == 0 && 90500 / 10000 == 9 && (90500 / 100) % 100 == 5;
  }

  lemma KittyVersionText()
    ensures FormatVersion(2900) == "0.29"
  {
    assert 2900 % 10000 == 2900 && 2900 % 100 == 0 && 2900 / 10000 == 0 && (2900 / 100) % 100 == 29;
    assert Decimal(29) == Decimal(2) + "9";
  }

  lemma VteVersionText()
    ensures FormatVersion(7601) == "0.76.1"
  {
    assert 7601 % 10000 == 7601 && 7601 % 100 == 1 && 7601 / 10000 == 0 && (7601 / 100) % 100 == 76;
    assert Decimal(76) == Decimal(7) + "6";
  }

  lemma XtermVersionText()
    ensures FormatVersion(3900000) == "390"
  {
    assert 3900000 % 10000 == 0 && 3900000 / 10000 == 390;
    assert Decimal(39) == Decimal(3) + "9";
    assert Decimal(390) == Decimal(39) + "0";
  }

  /** rxvt's DA2 number 95 is version 9.5. */
  lemma RxvtVersion(s: State)
    requires s.implementation == Rxvt && s.implementationVersion == [] && s.vn == 95
    ensures VersionStep(s).implementationVersion == "9.5"
  {
    RenderedVersion(s);
    assert ScaledVersion(s) == 90500;
    RxvtVersionText();
  }

  /** kitty's "4000;29", merged to 400029, is version 0.29. */
  lemma KittyVersion(s: State)
    requires s.implementation == Kitty && s.implementationVersion == [] && s.vn == 400029
    requires !StartsWith(s.qReply, "kitty(")
    ensures VersionStep(s).implementationVersion == "0.29"
  {
    RenderedVersion(s);
    assert ScaledVersion(s) == 2900;
    KittyVersionText();
  }

  /** VTE's "7601;1", merged to 760101, is version 0.76.1. */
  lemma VteVersion(s: State)
    requires s.implementation == Vte && s.implementationVersion == [] && s.vn == 760101
    ensures VersionStep(s).implementationVersion == "0.76.1"
  {
    RenderedVersion(s);
    assert ScaledVersion(s) == 7601;
    VteVersionText();
  }

  /** XTerm's single number 390 is version 390. */
  lemma XtermVersion(s: State)
    requires s.implementation == Xterm && s.implementationVersion == [] && s.vn == 390
    ensures VersionStep(s).implementationVersion == "390"
  {
    RenderedVersion(s);
    assert ScaledVersion(s) == 3900000;
    XtermVersionText();
  }

  /** Alacritty's DA1 reply "6" turns its VT100 into a VT102. */
  lemma AlacrittyVt102(s: State)
    requires IsAlacritty(s) && s.emulation == Vt100 && s.da1Reply == "6"
    ensures AlacrittyEmulation(s).emulation == Vt102
  {
    var sv := s.da1Reply + ";";
    assert sv == "6;";
    forall j | 0 <= j < 5 ensures !EntryMatches(sv, false, j) {
      EntryMismatch(sv, false, j, 0);
    }
    assert EntryMatches(sv, false, 5);
    FirstEmulationIs(sv, false, 5);
  }

  /** The terminal every probe times out on. */
  const SilentTerminal: Oracle := Oracle(NoReply, NoReply, NoReply, NoReply, NoReply, NoReply)

  /**
    Emacs Term (`TERM` "eterm-color"): nothing is answered, the guard names
    the implementation, and the schedule still sends Q, TN and DA3 twice
    each; DA3 timed out, so OSC702 is not sent.
   */
  lemma EmacsTermRun()
    ensures Probed(SilentTerminal, Some("eterm-color")).issued == [Da2, Da1, Q, Tn, Da3, Q, Tn, Da3]
    ensures var t := Probed(SilentTerminal, Some("eterm-color"));
            RxvtAnswered(t) && Classifiable(t)
            && Classify(t).implementation == EmacsTerm && Classify(t).emulation == Vt100
            && Classify(t).featureSet == {Decstbm}
  {
    var s0 := Opening(SilentTerminal);
    SilentOpening();
    assert StartsWith("eterm-color", "eterm");
    var s := TermGuard(s0, Some("eterm-color"));
    assert s == s0.(implementation := EmacsTerm, emulation := Vt100);
    EmacsTermSchedule(s);
    EmacsTermClassify(Schedule(s, SilentTerminal));
  }

  /** With no answers, DA1 and DA2 store `<NO REPLY>` and leave the emulation and the features as they were. */
  lemma SilentOpening()
    ensures var s := Opening(SilentTerminal);
            s.da1Reply == NoReplyText && s.da2Reply == NoReplyText
            && s.emulation == UnknownEmulation && s.featureSet == {}
  {
    var o := SilentTerminal;
    var s0 := Fresh();
    SilentIssue(s0, Da2);
    var a := Issue(s0, Da2, o);
    NonNumericReply(NoReplyText, Da1Result(UnknownEmulation, {}, []),
                    Da2Result(UnknownEmulation, UnknownEmulation, 0, [], []));
    var s1 := AfterDa2(a).(da2Alarmed := Exchange(s0.da2Reply, Da2, o.da2).failed);
    assert s1 == a.(da2Alarmed := true);
    SilentIssue(s1, Da1);
    var b := Issue(s1, Da1, o);
    assert AfterDa1(b) == b;
  }

  /** Emacs Term runs all three blocks: Q, TN, DA3, Q, TN, DA3, each timing out, and no OSC702. */
  lemma EmacsTermSchedule(s: State)
    requires s.implementation == EmacsTerm && s.issued == [Da2, Da1]
    ensures Schedule(s, SilentTerminal)
         == s.(qReply := NoReplyText, tnReply := NoReplyText, da3Reply := NoReplyText,
               issued := [Da2, Da1, Q, Tn, Da3, Q, Tn, Da3])
  {
    var o := SilentTerminal;
    SilentQuestionBlock(s);
    var s1 := QuestionBlock(s, o);
    SilentDa3Block(s1);
    var s2 := Da3Block(s1, o);
    SilentOsc702Block(s2);
    EmacsTermLog();
  }

  /** The three blocks' probes after the opening pair, as one log. */
  lemma EmacsTermLog()
    ensures [Da2, Da1] + [Q, Tn] + [Da3, Q, Tn] + [Da3] == [Da2, Da1, Q, Tn, Da3, Q, Tn, Da3]
  {
  }

  /** Emacs Term gets Q and TN in the first block; neither is answered. */
  lemma SilentQuestionBlock(s: State)
    requires s.implementation == EmacsTerm
    ensures QuestionBlock(s, SilentTerminal) == s.(qReply := NoReplyText, tnReply := NoReplyText, issued := s.issued + [Q, Tn])
  {
    var s1 := Issue(s, Q, SilentTerminal);
    SilentIssue(s, Q);
    SilentIssue(s1, Tn);
  }

  /** Emacs Term gets DA3, Q and TN in the second block; none is answered. */
  lemma SilentDa3Block(s: State)
    requires s.implementation == EmacsTerm
    ensures Da3Block(s, SilentTerminal)
         == s.(da3Reply := NoReplyText, qReply := NoReplyText, tnReply := NoReplyText, issued := s.issued + [Da3, Q, Tn])
  {
    var s1 := Issue(s, Da3, SilentTerminal);
    SilentIssue(s, Da3);
    var s2 := Issue(s1, Q, SilentTerminal);
    SilentIssue(s1, Q);
    SilentIssue(s2, Tn);
  }

  /** Emacs Term gets DA3 once more in the third block; it times out, so OSC702 is not sent. */
  lemma SilentOsc702Block(s: State)
    requires s.implementation == EmacsTerm
    ensures Osc702Block(s, SilentTerminal) == s.(da3Reply := NoReplyText, issued := s.issued + [Da3])
  {
    SilentIssue(s, Da3);
  }

  /** A probe a silent terminal leaves unanswered stores `<NO REPLY>` and is logged. */
  lemma SilentIssue(s: State, p: Probe)
    ensures Issue(s, p, SilentTerminal) == WithReply(s, p, NoReplyText).(issued := s.issued + [p])
  {
    assert !StartsWith(NoReplyText, Dcs + "0") by {
      assert NoReplyText[1] != (Dcs + "0")[1];
    }
  }

  /** The classifier keeps Emacs Term, its VT100 emulation and adds only DECSTBM. */
  lemma EmacsTermClassify(t: State)
    requires t.implementation == EmacsTerm && t.emulation == Vt100 && t.featureSet == {}
    requires t.da3Reply == NoReplyText && t.osc702Reply == NotIssuedText
    ensures RxvtAnswered(t) && Classifiable(t)
    ensures var c := Classify(t); c.implementation == EmacsTerm && c.emulation == Vt100 && c.featureSet == {Decstbm}
  {
    EmacsTermIdentify(t);
  }

  /** No rule fires on Emacs Term's replies, so the guard's verdict stands. */
  lemma EmacsTermIdentify(t: State)
    requires t.implementation == EmacsTerm
    requires t.da3Reply == NoReplyText && t.osc702Reply == NotIssuedText
    ensures Identify(t) == EmacsTerm
  {
    assert t.da3Reply[0] != VteDa3Id[0] && t.da3Reply[0] != FootDa3Id[0];
    assert t.osc702Reply[0] != "rxvt"[0];
  }

  /**
    Eterm (`TERM` exactly "Eterm"): nothing is answered, the guard names the
    implementation, and no probe follows DA2 and DA1.
   */
  lemma EtermRun()
    ensures var t := Probed(SilentTerminal, Some("Eterm"));
            t.issued == [Da2, Da1] && t.implementation == Eterm && t.emulation == Vt100
  {
    SilentOpening();
    assert !StartsWith("Eterm", "eterm") by {
      assert "Eterm"[0] != "eterm"[0];
    }
  }

  /**
    st: DA2 times out (the alarm), DA1 answers ESC [ ? 6 c. The bare id "6"
    is a VT102, and no further probe is sent.
   */
  lemma StRun(o: Oracle, term: Option<string>)
    requires o.da2 == NoReply && o.da1 == Data("\U{1B}[?6c")
    ensures Probed(o, term).issued == [Da2, Da1]
    ensures var t := Probed(o, term);
            RxvtAnswered(t) && Classifiable(t)
            && Classify(t).implementation == St && Classify(t).emulation == Vt102
  {
    StOpening(o);
    var s := Opening(o);
    assert s.da1Reply[0] != NoReplyText[0];
    assert Guarded(o, term) == s;
    StClassify(s);
  }

  /** A state with st's evidence is identified as st and keeps its emulation. */
  lemma StClassify(s: State)
    requires s.implementation == Unknown && s.da1Reply == "6" && s.da2Alarmed
    requires s.issued == [Da2, Da1]
    ensures IsSt(s) && RxvtAnswered(s) && Classifiable(s)
    ensures Classify(s).implementation == St && Classify(s).emulation == s.emulation
  {
    IdentifyByRules(s);
  }

  lemma StOpening(o: Oracle)
    requires o.da2 == NoReply && o.da1 == Data("\U{1B}[?6c")
    ensures var s := Opening(o); s.da1Reply == "6" && s.da2Alarmed && s.emulation == Vt102
  {
    NonNumericReply(NoReplyText, Da1Result(UnknownEmulation, {}, []),
                    Da2Result(UnknownEmulation, UnknownEmulation, 0, [], []));
    StDa1Reply();
    StDa1Parse();
  }

  lemma StDa1Reply()
    ensures Exchange(NotIssuedText, Da1, Data("\U{1B}[?6c")).reply == "6"
  {
    StripFrame("6", ReplyPrefix(Da1), ReplySuffix(Da1));
    assert Frame("6", ReplyPrefix(Da1), ReplySuffix(Da1)) == "\U{1B}[?6c";
  }

  /** The bare id "6" names a VT102 and carries no feature. */
  lemma StDa1Parse()
    ensures ParseDa1("6", Da1Result(UnknownEmulation, {}, [])) == Da1Result(Vt102, {}, [])
  {
    var reply := "6";
    forall j | 0 <= j < 5 ensures !EntryMatches(reply, true, j) {
      EntryMismatch(reply, true, j, 0);
    }
    assert EntryMatches(reply, true, 5);
    FirstEmulationIs(reply, true, 5);
    assert Da1Lead(reply, UnknownEmulation) == ([], Vt102);
  }
}
