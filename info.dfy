/**
  The detector object: `info` with the members of `info_impl`, updated in
  place by the request and parse steps of the constructor, and the
  handling of the terminal descriptor. Every state-changing step is proved
  to move the object's snapshot exactly as the corresponding function of
  the `Session` and `Replies` modules says.
 */
module TermDetect {
  import opened Terminal
  import opened Text
  import opened Tables
  import opened Channel
  import opened Replies
  import opened Names
  import opened Session

  class Info {
    var implementation: Implementation
    var implementationVersion: string
    var emulation: Emulation
    var featureSet: set<Feature>
    var unknownFeatures: string
    var raw: string

    var da1Reply: string
    var da2Reply: string
    var da2ReplyTail: string
    var da3Reply: string
    var qReply: string
    var tnReply: string
    var osc702Reply: string
    var da2Alarmed: bool
    var vn: nat
    var da2Emulation: Emulation
    /** The probes sent so far, in order. */
    var issued: seq<Probe>

    /** The terminal descriptor, -1 when none is held. */
    var ttyFd: int
    /** The descriptors passed to the system's `close`, in order. */
    var closeCalls: seq<int>

    /** The detection state the object holds. */
    function Snapshot(): State
      reads this
    {
      State(implementation, implementationVersion, emulation, featureSet, unknownFeatures, raw,
            da1Reply, da2Reply, da2ReplyTail, da3Reply, qReply, tnReply, osc702Reply,
            da2Alarmed, vn, da2Emulation, issued)
    }

    /** The default member initialisers of `info` and `info_impl`: nothing detected, no descriptor. */
    constructor Empty()
      ensures Snapshot() == Fresh() && ttyFd == -1 && closeCalls == []
    {
      implementation, implementationVersion, emulation, featureSet, unknownFeatures, raw :=
        Unknown, [], UnknownEmulation, {}, [], [];
      da1Reply, da2Reply, da2ReplyTail, da3Reply := NotIssuedText, NotIssuedText, [], NotIssuedText;
      qReply, tnReply, osc702Reply := NotIssuedText, NotIssuedText, NotIssuedText;
      da2Alarmed, vn, da2Emulation, issued := false, 0, UnknownEmulation, [];
      ttyFd, closeCalls := -1, [];
    }

    /**
      The constructor of `info_impl` with the outcome of opening the
      terminal (`openedFd`, -1 on failure), the terminal's answers, `TERM`,
      and whether to close the terminal afterwards. An open terminal is
      probed and classified; with `closeFd` the descriptor is then closed
      as the source writes it, keeping its number (see
      `ReleaseThenDestroyAsWritten` for what the destructor does next).
     */
    constructor (o: Oracle, term: Option<string>, openedFd: int, closeFd: bool)
      requires openedFd >= -1
      requires openedFd != -1 ==> RxvtAnswered(Probed(o, term)) && Classifiable(Probed(o, term))
      ensures openedFd == -1 ==> Snapshot() == Fresh() && ttyFd == -1 && closeCalls == []
      ensures openedFd != -1 ==> Snapshot() == Detect(o, term)
      ensures openedFd != -1 ==> ttyFd == openedFd
      ensures openedFd != -1 ==> closeCalls == (if closeFd then [openedFd] else [])
    {
      implementation, implementationVersion, emulation, featureSet, unknownFeatures, raw :=
        Unknown, [], UnknownEmulation, {}, [], [];
      da1Reply, da2Reply, da2ReplyTail, da3Reply := NotIssuedText, NotIssuedText, [], NotIssuedText;
      qReply, tnReply, osc702Reply := NotIssuedText, NotIssuedText, NotIssuedText;
      da2Alarmed, vn, da2Emulation, issued := false, 0, UnknownEmulation, [];
      ttyFd, closeCalls := openedFd, [];
      new;
      if ttyFd != -1 {
        RunProbes(o, term);
        if closeFd {
          ReleaseAsWritten();
        }
        ClassifyReplies();
      }
    }

    /** `get_fd()`. */
    method GetFd() returns (fd: int)
      ensures fd == ttyFd
    {
      fd := ttyFd;
    }

    /** `close()`: a held descriptor is closed once and forgotten. */
    method Close()
      modifies this
      ensures ttyFd == -1
      ensures closeCalls == old(closeCalls) + (if old(ttyFd) != -1 then [old(ttyFd)] else [])
      ensures Snapshot() == old(Snapshot())
    {
      if ttyFd != -1 {
        closeCalls := closeCalls + [ttyFd];
        ttyFd := -1;
      }
    }

    /** The destructor `~info()`, which calls `close()`. */
    method Destroy()
      modifies this
      ensures ttyFd == -1
      ensures closeCalls == old(closeCalls) + (if old(ttyFd) != -1 then [old(ttyFd)] else [])
      ensures Snapshot() == old(Snapshot())
    {
      Close();
    }

    /** `close()` twice is `close()` once. */
    method CloseTwice()
      modifies this
      ensures ttyFd == -1
      ensures closeCalls == old(closeCalls) + (if old(ttyFd) != -1 then [old(ttyFd)] else [])
      ensures Snapshot() == old(Snapshot())
    {
      Close();
      Close();
    }

    /** The release at the end of probing as the constructor writes it: the descriptor is closed but kept. */
    method ReleaseAsWritten()
      modifies this
      ensures ttyFd == old(ttyFd) && closeCalls == old(closeCalls) + [old(ttyFd)]
      ensures Snapshot() == old(Snapshot())
    {
      closeCalls := closeCalls + [ttyFd];
    }

    /** As written, the release and then the destructor close the same descriptor twice. */
    method ReleaseThenDestroyAsWritten()
      requires ttyFd != -1
      modifies this
      ensures closeCalls == old(closeCalls) + [old(ttyFd), old(ttyFd)]
      ensures ttyFd == -1 && Snapshot() == old(Snapshot())
    {
      ReleaseAsWritten();
      Destroy();
    }

    /** Releasing through `Close` leaves the destructor nothing to close again. */
    method ReleaseThenDestroy()
      requires ttyFd != -1
      modifies this
      ensures closeCalls == old(closeCalls) + [old(ttyFd)]
      ensures ttyFd == -1 && Snapshot() == old(Snapshot())
    {
      Close();
      Destroy();
    }

    // ---------------------------------------------------------- names

    /** `emulation_name()`: the model's label and then the DA2 tail, byte by byte, escaped. */
    method EmulationName() returns (name: string)
      ensures name == EmulationLabel(emulation) + Escaped(da2ReplyTail)
    {
      name := AppendEscaped(EmulationLabel(emulation), da2ReplyTail);
    }

    /** The loop of `emulation_name()`: each byte of `tail` appended to `lead`, non-printable ones as " \xHH". */
    static method AppendEscaped(lead: string, tail: string) returns (name: string)
      ensures name == lead + Escaped(tail)
    {
      name := lead;
      var i := 0;
      while i < |tail|
        invariant 0 <= i <= |tail|
        invariant name == lead + Escaped(tail[..i])
      {
        var b := tail[i];
        var piece := if IsPrint(b) then [b] else " \\x" + Hex02(b as int);
        EscapedStep(tail, i);
        ConcatAssoc(lead, Escaped(tail[..i]), piece);
        name := name + piece;
        i := i + 1;
      }
      assert tail[..i] == tail;
    }

    // ---------------------------------------------------------- parsing

    /** `parse_da1` on the DA1 field. */
    method ParseDa1()
      modifies this
      ensures Snapshot() == AfterDa1(old(Snapshot()))
      ensures ttyFd == old(ttyFd) && closeCalls == old(closeCalls)
    {
      var r := ScanDa1(da1Reply, Da1Result(emulation, featureSet, unknownFeatures));
      emulation := r.emulation;
      SetFeatures(r.features, r.unknown);
    }

    /** Stores the features `parse_da1` found and the codes it did not know. */
    method SetFeatures(fs: set<Feature>, uf: string)
      modifies this
      ensures Snapshot() == old(Snapshot()).(featureSet := fs, unknownFeatures := uf)
      ensures ttyFd == old(ttyFd) && closeCalls == old(closeCalls)
    {
      featureSet, unknownFeatures := fs, uf;
    }

    /** The whole of `parse_da1`: the prefix scan, the feature loop, the trailing ';' dropped. */
    static method ScanDa1(reply: string, prior: Da1Result) returns (r: Da1Result)
      ensures r == Replies.ParseDa1(reply, prior)
    {
      var sv, em := ScanDa1Lead(reply, prior.emulation);
      var fs, uf := ScanDa1Codes(sv, prior.features, prior.unknown);
      if EndsWith(uf, ";") {
        uf := uf[..|uf| - 1];
      }
      r := Da1Result(em, fs, uf);
    }

    /** The prefix scan of `parse_da1`: the first entry that matches, as a prefix or as a bare id, is removed. */
    static method ScanDa1Lead(reply: string, emulation: Emulation) returns (sv: string, em: Emulation)
      ensures (sv, em) == Da1Lead(reply, emulation)
    {
      var k := 0;
      while k < |KnownEmulations|
        invariant 0 <= k <= |KnownEmulations|
        invariant forall j :: 0 <= j < k ==> !EntryMatches(reply, true, j)
      {
        var (prefix, e) := KnownEmulations[k];
        if StartsWith(reply, prefix) {
          sv, em := reply[|prefix|..], if emulation == UnknownEmulation || emulation == Vt100 then e else emulation;
          FirstEmulationIs(reply, true, k);
          return;
        } else if BareMatch(reply, prefix) {
          sv, em := [], if emulation == UnknownEmulation then e else emulation;
          FirstEmulationIs(reply, true, k);
          return;
        }
        k := k + 1;
      }
      sv, em := reply, emulation;
    }

    /** The feature loop of `parse_da1`, advancing a cursor over the codes. */
    static method ScanDa1Codes(sv0: string, features: set<Feature>, unknown: string)
      returns (fs: set<Feature>, uf: string)
      ensures (fs, uf) == Da1Codes(sv0, features, unknown)
    {
      var sv := sv0;
      fs, uf := features, unknown;
      while sv != []
        invariant Da1Codes(sv, fs, uf) == Da1Codes(sv0, features, unknown)
        decreases |sv|
      {
        var c := FromChars(sv, 0, |sv|);
        if !c.ok || !(c.stop == |sv| || sv[c.stop] == ';') {
          return;
        }
        var next := if c.stop < |sv| then c.stop + 1 else c.stop;
        if c.value in KnownFeatures {
          fs := fs + {KnownFeatures[c.value]};
        } else {
          uf := uf + sv[..next];
        }
        sv := sv[next..];
      }
    }

    /** `parse_da2` on the DA2 field. */
    method ParseDa2()
      modifies this
      ensures Snapshot() == AfterDa2(old(Snapshot()))
      ensures ttyFd == old(ttyFd) && closeCalls == old(closeCalls)
    {
      var r2 := ScanDa2(da2Reply, Da2Result(emulation, da2Emulation, vn, implementationVersion, da2ReplyTail));
      SetEmulations(r2.emulation, r2.da2Emulation);
      SetDa2Version(r2.vn, r2.version, r2.tail);
    }

    /** Stores the emulation `parse_da2` found, in both of its fields. */
    method SetEmulations(em: Emulation, da2em: Emulation)
      modifies this
      ensures Snapshot() == old(Snapshot()).(emulation := em, da2Emulation := da2em)
      ensures ttyFd == old(ttyFd) && closeCalls == old(closeCalls)
    {
      emulation, da2Emulation := em, da2em;
    }

    /** Stores the version number, the version text and the DA2 tail `parse_da2` found. */
    method SetDa2Version(n: nat, version: string, tail: string)
      modifies this
      ensures Snapshot() == old(Snapshot()).(vn := n, implementationVersion := version, da2ReplyTail := tail)
      ensures ttyFd == old(ttyFd) && closeCalls == old(closeCalls)
    {
      vn, implementationVersion, da2ReplyTail := n, version, tail;
    }

    /** The whole of `parse_da2`: the prefix step, then the version step. */
    static method ScanDa2(reply: string, r: Da2Result) returns (r2: Da2Result)
      ensures r2 == Replies.ParseDa2(reply, r)
    {
      var sv, r1 := ScanDa2Lead(reply, r);
      r2 := ScanDa2Version(sv, r1);
    }

    /** The prefix step of `parse_da2`: the table scan, else the skip of "1;". */
    static method ScanDa2Lead(reply: string, r: Da2Result) returns (sv: string, r1: Da2Result)
      ensures (sv, r1) == Da2Lead(reply, r)
    {
      sv, r1 := reply, r;
      var k := 0;
      while k < |KnownEmulations|
        invariant 0 <= k <= |KnownEmulations|
        invariant forall j :: 0 <= j < k ==> !EntryMatches(reply, false, j)
      {
        var (prefix, e) := KnownEmulations[k];
        if StartsWith(reply, prefix) {
          r1 := r.(emulation := e, da2Emulation := e);
          sv := reply[|prefix|..];
          FirstEmulationIs(reply, false, k);
          return;
        }
        k := k + 1;
      }
      if StartsWith(sv, "1;") {
        sv := sv[2..];
      }
    }

    /** The version step of `parse_da2`, with the `do ... while` over a dotted version. */
    static method ScanDa2Version(sv0: string, r: Da2Result) returns (r2: Da2Result)
      ensures r2 == Da2Version(sv0, r)
    {
      var sv := sv0;
      r2 := r;
      var svend := IndexOf(sv, ';', 0);
      var c := FromChars(sv, 0, svend);
      if !c.ok {
        return;
      }
      r2 := r2.(vn := c.value);
      if c.stop < svend && sv[c.stop] == '.' {
        var dot := c.stop;
        var d := FromChars(sv, dot + 1, svend);
        while d.ok && d.stop < svend && sv[d.stop] == '.'
          invariant c.stop <= dot < svend && sv[dot] == '.'
          invariant d == FromChars(sv, dot + 1, svend)
          invariant DotRun(sv, c.stop, svend) == DotRun(sv, dot, svend)
          decreases svend - dot
        {
          dot := d.stop;
          d := FromChars(sv, dot + 1, svend);
        }
        if d.ok && (d.stop == svend || sv[d.stop] == ';') {
          r2 := r2.(version := sv[..d.stop]);
        }
        sv := sv[d.stop..];
        if sv == ";0" {
          return;
        }
      } else {
        sv := sv[c.stop..];
      }
      r2 := ScanDa2Tail(sv, r2);
    }

    /** The tail step of `parse_da2`: the merge of a second number and the drop of ";0". */
    static method ScanDa2Tail(sv0: string, r: Da2Result) returns (r2: Da2Result)
      ensures r2 == Da2Tail(sv0, r)
    {
      var sv := sv0;
      r2 := r.(tail := sv);
      if |sv| > 0 && sv[0] == ';' {
        var c := FromChars(sv, 1, |sv|);
        if c.ok && r2.vn < 10000 && c.value != 0 && c.value < 100 {
          sv := sv[c.stop..];
          r2 := r2.(vn := r2.vn * 100 + c.value, tail := sv);
        }
        if r2.tail == ";0" {
          r2 := r2.(tail := []);
        }
      }
    }

    // ---------------------------------------------------------- requests

    /** `make_da1_request`: the exchange into the DA1 field, then `parse_da1`. */
    method MakeDa1Request(o: Oracle)
      modifies this
      ensures Snapshot() == IssueDa1(old(Snapshot()), o)
      ensures ttyFd == old(ttyFd) && closeCalls == old(closeCalls)
    {
      var res, failed := MakeRequest(da1Reply, Da1, o.da1);
      da1Reply, issued := res, issued + [Da1];
      ParseDa1();
    }

    /** `make_da2_request`: the exchange into the DA2 field, then `parse_da2`; reports the exchange's failure. */
    method MakeDa2Request(o: Oracle) returns (failed: bool)
      modifies this
      ensures Snapshot() == IssueDa2(old(Snapshot()), o)
      ensures failed == Exchange(old(da2Reply), Da2, o.da2).failed
      ensures ttyFd == old(ttyFd) && closeCalls == old(closeCalls)
    {
      var res;
      res, failed := MakeRequest(da2Reply, Da2, o.da2);
      da2Reply, issued := res, issued + [Da2];
      ParseDa2();
    }

    /** `make_da3_request`. */
    method MakeDa3Request(o: Oracle)
      modifies this
      ensures Snapshot() == Issue(old(Snapshot()), Da3, o)
      ensures ttyFd == old(ttyFd) && closeCalls == old(closeCalls)
    {
      var res, failed := MakeRequest(da3Reply, Da3, o.da3);
      da3Reply, issued := res, issued + [Da3];
    }

    /** `make_q_request`. */
    method MakeQRequest(o: Oracle)
      modifies this
      ensures Snapshot() == Issue(old(Snapshot()), Q, o)
      ensures ttyFd == old(ttyFd) && closeCalls == old(closeCalls)
    {
      var res, failed := MakeRequest(qReply, Q, o.q);
      qReply, issued := res, issued + [Q];
    }

    /** `make_tn_request`: the exchange, then an error echo becomes "???". */
    method MakeTnRequest(o: Oracle)
      modifies this
      ensures Snapshot() == Issue(old(Snapshot()), Tn, o)
      ensures ttyFd == old(ttyFd) && closeCalls == old(closeCalls)
    {
      var res, failed := MakeRequest(tnReply, Tn, o.tn);
      tnReply, issued := res, issued + [Tn];
      if StartsWith(tnReply, Dcs + "0") {
        tnReply := "???";
      }
    }

    /** `make_osc702_request`. */
    method MakeOsc702Request(o: Oracle)
      modifies this
      ensures Snapshot() == Issue(old(Snapshot()), Osc702, o)
      ensures ttyFd == old(ttyFd) && closeCalls == old(closeCalls)
    {
      var res, failed := MakeRequest(osc702Reply, Osc702, o.osc702);
      osc702Reply, issued := res, issued + [Osc702];
    }

    // ---------------------------------------------------------- schedule

    /** The probing part of the constructor, from a fresh object. */
    method RunProbes(o: Oracle, term: Option<string>)
      requires Snapshot() == Fresh()
      modifies this
      ensures Snapshot() == Probed(o, term)
      ensures ttyFd == old(ttyFd) && closeCalls == old(closeCalls)
    {
      OpeningRequests(o);
      GuardEterm(term);
      var s := Snapshot();
      if !IsSt(s) && !IsAlacritty(s) && !IsEterm(s) && !IsQt5(s) {
        ProbeQuestion(o);
        ProbeDa3(o);
        ProbeOsc702(o);
      }
    }

    /** DA2, whose failure is remembered as `da2_alarmed`, then DA1. */
    method OpeningRequests(o: Oracle)
      requires Snapshot() == Fresh()
      modifies this
      ensures Snapshot() == Opening(o)
      ensures ttyFd == old(ttyFd) && closeCalls == old(closeCalls)
    {
      var failed := MakeDa2Request(o);
      da2Alarmed := failed;
      MakeDa1Request(o);
    }

    /** The Eterm/Emacs Term guard on `TERM` when neither DA request was answered. */
    method GuardEterm(term: Option<string>)
      modifies this
      ensures Snapshot() == TermGuard(old(Snapshot()), term)
      ensures ttyFd == old(ttyFd) && closeCalls == old(closeCalls)
    {
      if da1Reply == NoReplyText && da2Reply == NoReplyText {
        if term.Some? && StartsWith(term.value, "eterm") {
          implementation, emulation := EmacsTerm, Vt100;
        } else if term == Some("Eterm") {
          implementation, emulation := Eterm, Vt100;
        }
      }
    }

    /** The first block of the schedule: Q, then TN. */
    method ProbeQuestion(o: Oracle)
      modifies this
      ensures Snapshot() == QuestionBlock(old(Snapshot()), o)
      ensures ttyFd == old(ttyFd) && closeCalls == old(closeCalls)
    {
      if IsNotVte(Snapshot()) && !IsRxvt(Snapshot()) {
        MakeQRequest(o);
        var s := Snapshot();
        if !IsRxvt(s) && !IsXterm(s) && !IsContour(s) && !IsTerminology(s) && !IsKonsole(s) {
          MakeTnRequest(o);
        }
      }
    }

    /** The second block of the schedule: DA3, then Q and TN again. */
    method ProbeDa3(o: Oracle)
      modifies this
      ensures Snapshot() == Da3Block(old(Snapshot()), o)
      ensures ttyFd == old(ttyFd) && closeCalls == old(closeCalls)
    {
      if !IsKitty(Snapshot()) && !IsRxvt(Snapshot()) {
        MakeDa3Request(o);
        var s := Snapshot();
        if IsNotVte(s) && !IsVte(s) && !IsXterm(s) && !IsKonsole(s) {
          MakeQRequest(o);
          if !IsTerminology(Snapshot()) && !IsGhostty(Snapshot()) {
            MakeTnRequest(o);
          }
        }
      }
    }

    /** The third block of the schedule: DA3 once more, then OSC702 while DA3 holds no reply. */
    method ProbeOsc702(o: Oracle)
      modifies this
      ensures Snapshot() == Osc702Block(old(Snapshot()), o)
      ensures ttyFd == old(ttyFd) && closeCalls == old(closeCalls)
    {
      if !IsKitty(Snapshot()) && !IsMrxvt(Snapshot()) {
        if !IsRxvt(Snapshot()) && !IsGhostty(Snapshot()) {
          MakeDa3Request(o);
        }
        if da3Reply == NotIssuedText {
          MakeOsc702Request(o);
        }
      }
    }

    // ---------------------------------------------------------- classifier

    /**
      The classifier at the end of the constructor: `raw`, the
      implementation, its version, the scan of the table for Alacritty's DA1
      reply, and the forced features.
     */
    method ClassifyReplies()
      requires Classifiable(Snapshot())
      modifies this
      ensures Snapshot() == Classify(old(Snapshot()))
      ensures ttyFd == old(ttyFd) && closeCalls == old(closeCalls)
    {
      var identified := Identify(Snapshot());
      raw, implementation := Raw(tnReply, da1Reply, da2Reply, da3Reply, osc702Reply, qReply), identified;
      SetVersion();
      FixAlacrittyEmulation();
      AddForcedFeatures();
    }

    /** The version the replies give, when DA2 did not give one. */
    method SetVersion()
      requires VersionReadable(Snapshot())
      modifies this
      ensures Snapshot() == VersionStep(old(Snapshot()))
      ensures ttyFd == old(ttyFd) && closeCalls == old(closeCalls)
    {
      var versioned := VersionStep(Snapshot());
      implementationVersion, vn := versioned.implementationVersion, versioned.vn;
    }

    /** Alacritty answers DA1 with a bare emulation id: look it up with a separator appended. */
    method FixAlacrittyEmulation()
      modifies this
      ensures Snapshot() == AlacrittyEmulation(old(Snapshot()))
      ensures ttyFd == old(ttyFd) && closeCalls == old(closeCalls)
    {
      if IsAlacritty(Snapshot()) && emulation == Vt100 {
        emulation := ScanPrefixes(da1Reply + ";", emulation);
      }
    }

    /** The emulation of the first table entry whose DA1 prefix `sv` starts with, else `em0`. */
    static method ScanPrefixes(sv: string, em0: Emulation) returns (em: Emulation)
      ensures var k := FirstEmulation(sv, false, 0);
              em == if k < |KnownEmulations| then KnownEmulations[k].1 else em0
    {
      var k := 0;
      while k < |KnownEmulations|
        invariant 0 <= k <= |KnownEmulations|
        invariant forall j :: 0 <= j < k ==> !EntryMatches(sv, false, j)
      {
        if StartsWith(sv, KnownEmulations[k].0) {
          FirstEmulationIs(sv, false, k);
          return KnownEmulations[k].1;
        }
        k := k + 1;
      }
      em := em0;
    }

    /** The features no reply announces. */
    method AddForcedFeatures()
      modifies this
      ensures Snapshot() == ForcedFeatures(old(Snapshot()))
      ensures ttyFd == old(ttyFd) && closeCalls == old(closeCalls)
    {
      if IsKitty(Snapshot()) {
        featureSet := featureSet + {DesktopNotification};
      }
      if IsContour(Snapshot()) {
        featureSet := featureSet + {VertLineMarkers};
      }
      featureSet := featureSet + {Decstbm};
    }
  }

  /**
    `info::alloc` with its default `close_fd`, on a terminal that opens,
    followed by the destruction of the object: the descriptor reaches the
    system's `close` twice.
   */
  method AllocThenDestroy(o: Oracle, term: Option<string>, fd: int) returns (info: Info)
    requires fd >= 0
    requires RxvtAnswered(Probed(o, term)) && Classifiable(Probed(o, term))
    ensures fresh(info) && info.Snapshot() == Detect(o, term)
    ensures info.closeCalls == [fd, fd] && info.ttyFd == -1
  {
    info := new Info(o, term, fd, true);
    info.Destroy();
  }
}
