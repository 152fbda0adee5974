/**
  The display side of the detector: the names of implementations, emulations
  and features, the escaping of non-printable reply bytes, the `raw`
  diagnostic line and the choice of the default request delay.
 */
module Names {
  import opened Terminal
  import opened Text

  /** `implementation_name()` for every declared enumerator (its `default` branch cannot be reached). */
  function ImplementationName(i: Implementation): (name: string)
    ensures name != []
  {
    match i
    case Unknown => "unknown"
    case Vte => "VTE-based"
    case Foot => "Foot"
    case Terminology => "Terminology"
    case Contour => "Contour"
    case Xterm => "XTerm"
    case Rxvt => "rxvt"
    case Mrxvt => "mrxvt"
    case Kitty => "Kitty"
    case Alacritty => "Alacritty"
    case St => "st"
    case Konsole => "Konsole"
    case Eterm => "ETerm"
    case EmacsTerm => "Emacs Term"
    case Qt5 => "Qt5"
    case Ghostty => "ghostty"
  }

  /** Different implementations get different names. */
  lemma ImplementationNameInjective(i: Implementation, j: Implementation)
    requires i != j
    ensures ImplementationName(i) != ImplementationName(j)
  {
  }

  /** The first part of `emulation_name()`: the DEC model, or "<unknown terminal>". */
  function EmulationLabel(e: Emulation): (name: string)
    ensures name != []
  {
    match e
    case UnknownEmulation => "<unknown terminal>"
    case Vt100 => "VT100"
    case Vt100Avo => "VT100 w/ Advanced Video Option"
    case Vt101 => "VT101"
    case Vt102 => "VT102"
    case Vt125 => "VT125"
    case Vt131 => "VT131"
    case Vt132 => "VT132"
    case Vt220 => "VT220"
    case Vt240 => "VT240"
    case Vt330 => "VT330"
    case Vt340 => "VT340"
    case Vt320 => "VT320"
    case Vt382 => "VT382"
    case Vt420 => "VT420"
    case Vt510 => "VT510"
    case Vt520 => "VT520"
    case Vt525 => "VT525"
  }

  /** Labels tell emulations apart. */
  lemma EmulationLabelInjective(e: Emulation, f: Emulation)
    requires e != f
    ensures EmulationLabel(e) != EmulationLabel(f)
  {
  }

  /** How `emulation_name()` shows one byte of the DA2 tail: itself when printable, else " \xHH". */
  function EscapeByte(c: char): (r: string)
    ensures IsPrint(c) ==> r == [c]
    ensures !IsPrint(c) ==> |r| >= 5 && r[..3] == " \\x"
  {
    if IsPrint(c) then [c] else " \\x" + Hex02(c as int)
  }

  /** The DA2 tail as `emulation_name()` appends it. */
  function Escaped(s: string): string
  {
    if s == [] then [] else Escaped(s[..|s| - 1]) + EscapeByte(s[|s| - 1])
  }

  /** Escaping one more byte of a string appends that byte's escape. */
  lemma EscapedStep(s: string, i: nat)
    requires i < |s|
    ensures Escaped(s[..i + 1]) == Escaped(s[..i]) + EscapeByte(s[i])
  {
    assert s[..i + 1][..i] == s[..i];
  }

  /** Escaping works byte by byte: escaping a concatenation concatenates the escapes. */
  lemma {:induction false} EscapedAppend(a: string, b: string)
    ensures Escaped(a + b) == Escaped(a) + Escaped(b)
    decreases |b|
  {
    if b != [] {
      var b' := b[..|b| - 1];
      assert (a + b)[..|a + b| - 1] == a + b';
      EscapedAppend(a, b');
    } else {
      assert a + b == a;
    }
  }

  /** A tail of printable bytes is shown verbatim. */
  lemma {:induction false} EscapedPrintable(s: string)
    requires forall i :: 0 <= i < |s| ==> IsPrint(s[i])
    ensures Escaped(s) == s
  {
    if s != [] {
      EscapedPrintable(s[..|s| - 1]);
    }
  }

  /** For a tail of bytes, everything shown is printable: the escapes replace exactly the non-printable bytes. */
  lemma {:induction false} EscapedIsPrintable(s: string)
    requires forall i :: 0 <= i < |s| ==> s[i] as int < 256
    ensures forall i :: 0 <= i < |Escaped(s)| ==> IsPrint(Escaped(s)[i])
  {
    if s != [] {
      var init := s[..|s| - 1];
      EscapedIsPrintable(init);
      var c := s[|s| - 1];
      var e := EscapeByte(c);
      if !IsPrint(c) {
        HexPrintable(c as int);
      }
      var r := Escaped(s);
      assert r == Escaped(init) + e;
      forall i | 0 <= i < |r| ensures IsPrint(r[i]) {
        if i < |Escaped(init)| {
          assert r[i] == Escaped(init)[i];
        } else {
          assert r[i] == e[i - |Escaped(init)|];
        }
      }
    }
  }

  /** The hex rendering of a byte is two printable characters. */
  lemma HexPrintable(n: nat)
    requires n < 256
    ensures forall i :: 0 <= i < |Hex02(n)| ==> IsPrint(Hex02(n)[i])
  {
    if n >= 16 {
      assert HexDigits(n / 16) == [HexChar(n / 16)];
    }
  }

  /** The escape of a non-printable byte can be read back: its two hex digits give the byte. */
  lemma EscapeByteRoundTrip(c: char)
    requires c as int < 256 && !IsPrint(c)
    ensures HexValue(EscapeByte(c)[3..]) == c as int
  {
    assert EscapeByte(c)[3..] == Hex02(c as int);
    Hex02RoundTrip(c as int);
  }

  /** `feature_name()` for every declared enumerator (its `default` branch cannot be reached). */
  function FeatureName(f: Feature): (name: string)
    ensures name != []
  {
    match f
    case Col132 => "132cols"
    case Printer => "printer"
    case Regis => "regis"
    case Sixel => "sixel"
    case SelErase => "selerase"
    case Drcs => "drcs"
    case Udk => "udk"
    case Nrcs => "nrcs"
    case Scs => "scs"
    case TechCharset => "techcharset"
    case LocatorPort => "locatorport"
    case StateInterrogation => "stateinterrogation"
    case Windowing => "windowing"
    case Sessions => "sessions"
    case HorScroll => "horscoll"
    case AnsiColors => "ansicolors"
    case Greek => "greek"
    case Turkish => "turkish"
    case TextLocator => "textlocator"
    case Latin2 => "latin2"
    case PcTerm => "pcterm"
    case SoftKeyMap => "softkeymap"
    case AsciiEmul => "asciiemul"
    case CaptureContour => "capturecontour"
    case RectEditContour => "recteditcontour"
    case DesktopNotification => "desktopnotification"
    case Decstbm => "decstbm"
    case VertLineMarkers => "vertlinemarkers"
  }

  /** Reads a feature name back; anything else names no feature. */
  function FeatureByName(name: string): Option<Feature>
  {
    match name
    case "132cols" => Some(Col132)
    case "printer" => Some(Printer)
    case "regis" => Some(Regis)
    case "sixel" => Some(Sixel)
    case "selerase" => Some(SelErase)
    case "drcs" => Some(Drcs)
    case "udk" => Some(Udk)
    case "nrcs" => Some(Nrcs)
    case "scs" => Some(Scs)
    case "techcharset" => Some(TechCharset)
    case "locatorport" => Some(LocatorPort)
    case "stateinterrogation" => Some(StateInterrogation)
    case "windowing" => Some(Windowing)
    case "sessions" => Some(Sessions)
    case "horscoll" => Some(HorScroll)
    case "ansicolors" => Some(AnsiColors)
    case "greek" => Some(Greek)
    case "turkish" => Some(Turkish)
    case "textlocator" => Some(TextLocator)
    case "latin2" => Some(Latin2)
    case "pcterm" => Some(PcTerm)
    case "softkeymap" => Some(SoftKeyMap)
    case "asciiemul" => Some(AsciiEmul)
    case "capturecontour" => Some(CaptureContour)
    case "recteditcontour" => Some(RectEditContour)
    case "desktopnotification" => Some(DesktopNotification)
    case "decstbm" => Some(Decstbm)
    case "vertlinemarkers" => Some(VertLineMarkers)
    case _ => None
  }

  /** Every feature name reads back as its feature. */
  lemma FeatureNameRoundTrip(f: Feature)
    ensures FeatureByName(FeatureName(f)) == Some(f)
  {
    match f
    case Col132 =>
    case Printer =>
    case Regis =>
    case Sixel =>
    case SelErase =>
    case Drcs =>
    case Udk =>
    case Nrcs =>
    case Scs =>
    case TechCharset =>
    case LocatorPort =>
    case StateInterrogation =>
    case Windowing =>
    case Sessions =>
    case HorScroll =>
    case AnsiColors =>
    case Greek =>
    case Turkish =>
    case TextLocator =>
    case Latin2 =>
    case PcTerm =>
    case SoftKeyMap =>
    case AsciiEmul =>
    case CaptureContour =>
    case RectEditContour =>
    case DesktopNotification =>
    case Decstbm =>
    case VertLineMarkers =>
  }

  /** Feature names tell features apart. */
  lemma FeatureNameInjective(f: Feature, g: Feature)
    requires f != g
    ensures FeatureName(f) != FeatureName(g)
  {
    FeatureNameRoundTrip(f);
    FeatureNameRoundTrip(g);
  }

  /** Horizontal scrolling keeps the misspelt name the source gives it. */
  lemma HorScrollName()
    ensures FeatureName(HorScroll) == "horscoll"
  {
  }

  /**
    `get_default_request_delay()` with the value of `DISPLAY`: a display that
    is set, non-empty and not local (not starting with ':') suggests a remote
    session and gets 500 ms; otherwise 100 ms.
   */
  function DefaultRequestDelay(display: Option<string>): (ms: nat)
    ensures ms == 500 <==> display.Some? && display.value != [] && display.value[0] != ':'
    ensures ms == 100 || ms == 500
  {
    if display.Some? && display.value != [] && display.value[0] != ':' then 500 else 100
  }

  /** The `raw` diagnostic line: every reply, labelled, in a fixed order. */
  function Raw(tn: string, da1: string, da2: string, da3: string, osc702: string, q: string): string
  {
    "TN=" + tn + ", DA1=" + da1 + ", DA2=" + da2 + ", DA3=" + da3 + ", OSC702=" + osc702 + ", Q=" + q
  }

  /** The labels of the `raw` line, in the order the replies appear. */
  const RawLabels: seq<string> := ["TN=", ", DA1=", ", DA2=", ", DA3=", ", OSC702=", ", Q="]

  /** Each label followed by its value, in order: an independent reading of the `raw` layout. */
  function Labelled(labels: seq<string>, values: seq<string>): string
    requires |labels| == |values|
    decreases |labels|
  {
    if labels == [] then [] else labels[0] + values[0] + Labelled(labels[1..], values[1..])
  }

  /** Splitting the pairs at `k` splits the labelled text there. */
  lemma {:induction false} LabelledSplit(labels: seq<string>, values: seq<string>, k: nat)
    requires |labels| == |values| && k <= |labels|
    ensures Labelled(labels, values) == Labelled(labels[..k], values[..k]) + Labelled(labels[k..], values[k..])
    decreases k
  {
    if k > 0 {
      LabelledSplit(labels[1..], values[1..], k - 1);
      assert labels[..k][1..] == labels[1..][..k - 1];
      assert values[..k][1..] == values[1..][..k - 1];
      assert labels[1..][k - 1..] == labels[k..];
      assert values[1..][k - 1..] == values[k..];
    } else {
      assert labels[..0] == [] && labels[0..] == labels && values[0..] == values;
    }
  }

  /** In a labelled text, the k-th label sits where the first k pairs end, and its value follows it verbatim. */
  lemma LabelledAt(labels: seq<string>, values: seq<string>, k: nat)
    requires |labels| == |values| && k < |labels|
    ensures var r := Labelled(labels, values);
            var at := |Labelled(labels[..k], values[..k])|;
            var end := at + |labels[k]| + |values[k]|;
            end <= |r| && r[at..at + |labels[k]|] == labels[k] && r[at + |labels[k]|..end] == values[k]
  {
    LabelledSplit(labels, values, k);
    var head := Labelled(labels[..k], values[..k]);
    var rest := Labelled(labels[k..], values[k..]);
    assert rest == labels[k] + values[k] + Labelled(labels[k + 1..], values[k + 1..]) by {
      assert labels[k..][1..] == labels[k + 1..] && values[k..][1..] == values[k + 1..];
    }
  }

  /** One more pair at the end. */
  lemma {:induction false} LabelledSnoc(labels: seq<string>, values: seq<string>, l: string, v: string)
    requires |labels| == |values|
    ensures Labelled(labels + [l], values + [v]) == Labelled(labels, values) + l + v
    decreases |labels|
  {
    if labels == [] {
      assert labels + [l] == [l] && values + [v] == [v];
      assert [l][1..] == [] && [v][1..] == [];
    } else {
      assert (labels + [l])[1..] == labels[1..] + [l];
      assert (values + [v])[1..] == values[1..] + [v];
      LabelledSnoc(labels[1..], values[1..], l, v);
    }
  }

  /** Six pairs, labelled, read from left to right. */
  lemma LabelledSix(l1: string, l2: string, l3: string, l4: string, l5: string, l6: string,
                    v1: string, v2: string, v3: string, v4: string, v5: string, v6: string)
    ensures Labelled([l1, l2, l3, l4, l5, l6], [v1, v2, v3, v4, v5, v6])
         == l1 + v1 + l2 + v2 + l3 + v3 + l4 + v4 + l5 + v5 + l6 + v6
  {
    assert Labelled([l1], [v1]) == l1 + v1 by {
      LabelledSnoc([], [], l1, v1);
      assert [] + [l1] == [l1] && [] + [v1] == [v1] && [] + l1 == l1;
    }
    assert Labelled([l1, l2], [v1, v2]) == l1 + v1 + l2 + v2 by {
      LabelledSnoc([l1], [v1], l2, v2);
      assert [l1] + [l2] == [l1, l2] && [v1] + [v2] == [v1, v2];
    }
    assert Labelled([l1, l2, l3], [v1, v2, v3]) == l1 + v1 + l2 + v2 + l3 + v3 by {
      LabelledSnoc([l1, l2], [v1, v2], l3, v3);
      assert [l1, l2] + [l3] == [l1, l2, l3] && [v1, v2] + [v3] == [v1, v2, v3];
    }
    assert Labelled([l1, l2, l3, l4], [v1, v2, v3, v4]) == l1 + v1 + l2 + v2 + l3 + v3 + l4 + v4 by {
      LabelledSnoc([l1, l2, l3], [v1, v2, v3], l4, v4);
      assert [l1, l2, l3] + [l4] == [l1, l2, l3, l4] && [v1, v2, v3] + [v4] == [v1, v2, v3, v4];
    }
    assert Labelled([l1, l2, l3, l4, l5], [v1, v2, v3, v4, v5])
            == l1 + v1 + l2 + v2 + l3 + v3 + l4 + v4 + l5 + v5 by {
      LabelledSnoc([l1, l2, l3, l4], [v1, v2, v3, v4], l5, v5);
      assert [l1, l2, l3, l4] + [l5] == [l1, l2, l3, l4, l5] && [v1, v2, v3, v4] + [v5] == [v1, v2, v3, v4, v5];
    }
    LabelledSnoc([l1, l2, l3, l4, l5], [v1, v2, v3, v4, v5], l6, v6);
    assert [l1, l2, l3, l4, l5] + [l6] == [l1, l2, l3, l4, l5, l6];
    assert [v1, v2, v3, v4, v5] + [v6] == [v1, v2, v3, v4, v5, v6];
  }

  /** The `raw` line is the six replies, each after its label, in the order TN, DA1, DA2, DA3, OSC702, Q. */
  lemma RawLayout(tn: string, da1: string, da2: string, da3: string, osc702: string, q: string)
    ensures Raw(tn, da1, da2, da3, osc702, q) == Labelled(RawLabels, [tn, da1, da2, da3, osc702, q])
  {
    LabelledSix("TN=", ", DA1=", ", DA2=", ", DA3=", ", OSC702=", ", Q=", tn, da1, da2, da3, osc702, q);
  }

  /** Hence every reply appears verbatim right after its own label, at the position the earlier pairs leave. */
  lemma RawFieldAt(tn: string, da1: string, da2: string, da3: string, osc702: string, q: string, k: nat)
    requires k < 6
    ensures var vs := [tn, da1, da2, da3, osc702, q];
            var r := Raw(tn, da1, da2, da3, osc702, q);
            var at := |Labelled(RawLabels[..k], vs[..k])|;
            var end := at + |RawLabels[k]| + |vs[k]|;
            end <= |r| && r[at..at + |RawLabels[k]|] == RawLabels[k] && r[at + |RawLabels[k]|..end] == vs[k]
  {
    RawLayout(tn, da1, da2, da3, osc702, q);
    LabelledAt(RawLabels, [tn, da1, da2, da3, osc702, q], k);
  }
}
