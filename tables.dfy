/**
  The detector's static data: the wire format of the six queries (request
  bytes, reply prefix and suffix) and the two lookup tables, the ordered
  list of emulation-id prefixes and the map from DA1 feature codes to
  features.
 */
module Tables {
  import opened Terminal
  import opened Text

  const Csi: string := "\U{1B}["
  const Osc: string := "\U{1B}]"
  const Dcs: string := "\U{1B}P"
  const StringTerminator: string := "\U{1B}\\"

  /** The exact bytes written for each query. */
  function Request(p: Probe): (r: string)
    ensures |r| >= 3 && r[0] == '\U{1B}'
  {
    match p
    case Q => Csi + ">q"
    case Tn => Dcs + "+q544e" + StringTerminator
    case Osc702 => Osc + "702;?" + StringTerminator
    case Da1 => Csi + "c"
    case Da2 => Csi + ">c"
    case Da3 => Csi + "=c"
  }

  /** The framing expected in front of each reply. */
  function ReplyPrefix(p: Probe): (r: string)
    ensures |r| >= 2 && r[0] == '\U{1B}'
  {
    match p
    case Q => Dcs + ">|"
    case Tn => Dcs + "1+r544e="
    case Osc702 => Osc + "702;"
    case Da1 => Csi + "?"
    case Da2 => Csi + ">"
    case Da3 => Dcs + "!|"
  }

  /** The framing expected after each reply. */
  function ReplySuffix(p: Probe): (r: string)
    ensures r != []
  {
    match p
    case Q => StringTerminator
    case Tn => StringTerminator
    case Osc702 => "\U{1B}"
    case Da1 => "c"
    case Da2 => "c"
    case Da3 => StringTerminator
  }

  /** Each query has its own request bytes and its own reply prefix. */
  lemma WireFormatDistinct(p: Probe, p': Probe)
    requires p != p'
    ensures Request(p) != Request(p')
    ensures ReplyPrefix(p) != ReplyPrefix(p')
  {
    var r, r' := Request(p), Request(p');
    assert (|r|, r[1], r[2], r[|r| - 1]) != (|r'|, r'[1], r'[2], r'[|r'| - 1]);
    var f, f' := ReplyPrefix(p), ReplyPrefix(p');
    assert (|f|, f[1], f[|f| - 2], f[|f| - 1]) != (|f'|, f'[1], f'[|f'| - 2], f'[|f'| - 1]);
  }

  /**
    `known_emulations`: emulation-id prefixes in the order they are tried.
    The order matters (the first prefix that matches wins); the last two
    entries let rxvt's DA2 reply (which stores 'U' or 'R') be recognised.
   */
  const KnownEmulations: seq<(string, Emulation)> := [
    ("0;", Vt100),
    ("1;0", Vt101),
    ("1;2", Vt100Avo),
    ("2;", Vt240),
    ("4;6", Vt132),
    ("6;", Vt102),
    ("7;", Vt131),
    ("18;", Vt330),
    ("12;", Vt125),
    ("19;", Vt340),
    ("24;", Vt320),
    ("32;", Vt382),
    ("41;", Vt420),
    ("61;", Vt510),
    ("62;", Vt220),
    ("63;", Vt320),
    ("64;", Vt520),
    ("65;", Vt525),
    ("85;", UnknownEmulation),
    ("82;", UnknownEmulation)
  ]

  /** `known_features`: DA1 feature code to feature. */
  const KnownFeatures: map<nat, Feature> := map[
    1 := Col132,
    2 := Printer,
    3 := Regis,
    4 := Sixel,
    6 := SelErase,
    7 := Drcs,
    8 := Udk,
    9 := Nrcs,
    12 := Scs,
    15 := TechCharset,
    16 := LocatorPort,
    17 := StateInterrogation,
    18 := Windowing,
    19 := Sessions,
    21 := HorScroll,
    22 := AnsiColors,
    23 := Greek,
    24 := Turkish,
    28 := RectEditContour,
    29 := TextLocator,
    42 := Latin2,
    44 := PcTerm,
    45 := SoftKeyMap,
    46 := AsciiEmul,
    314 := CaptureContour
  ]

  /**
    The DA1 special case: the reply is an emulation id that lacks the
    table entry's final character (`strncmp` over the reply's length).
   */
  predicate BareMatch(sv: string, prefix: string)
  {
    |prefix| > 0 && |sv| == |prefix| - 1 && sv == prefix[..|sv|]
  }

  /** Does table entry `k` match `sv`: as a prefix, or (when `bare` is allowed) as a bare id? */
  predicate EntryMatches(sv: string, bare: bool, k: nat)
    requires k < |KnownEmulations|
  {
    StartsWith(sv, KnownEmulations[k].0) || (bare && BareMatch(sv, KnownEmulations[k].0))
  }

  /**
    The scan of `known_emulations` from entry `k` on: the index of the first
    matching entry, or `|KnownEmulations|` when none matches.
   */
  function FirstEmulation(sv: string, bare: bool, k: nat): (r: nat)
    requires k <= |KnownEmulations|
    ensures k <= r <= |KnownEmulations|
    ensures r < |KnownEmulations| ==> EntryMatches(sv, bare, r)
    ensures forall j :: k <= j < r ==> !EntryMatches(sv, bare, j)
    decreases |KnownEmulations| - k
  {
    if k == |KnownEmulations| then k
    else if EntryMatches(sv, bare, k) then k
    else FirstEmulation(sv, bare, k + 1)
  }

  /** Table order decides: the scan finds entry `k` exactly when `k` matches and no earlier entry does. */
  lemma FirstEmulationIs(sv: string, bare: bool, k: nat)
    requires k < |KnownEmulations|
    ensures FirstEmulation(sv, bare, 0) == k
        <==> EntryMatches(sv, bare, k) && forall j :: 0 <= j < k ==> !EntryMatches(sv, bare, j)
  {
  }

  /** One differing character rules an entry out, both as a prefix and as a bare id. */
  lemma EntryMismatch(sv: string, bare: bool, k: nat, i: nat)
    requires k < |KnownEmulations|
    requires i < |sv| && i < |KnownEmulations[k].0| && sv[i] != KnownEmulations[k].0[i]
    ensures !EntryMatches(sv, bare, k)
  {
  }

  /** Replies opening with "62;" are taken for a VT220: no earlier entry matches them. */
  lemma Vt220Scan(sv: string, bare: bool)
    requires StartsWith(sv, "62;")
    ensures FirstEmulation(sv, bare, 0) == 14 && KnownEmulations[14] == ("62;", Vt220)
  {
    assert sv[0] == '6' && sv[1] == '2' by {
      assert sv[..3] == "62;";
    }
    forall j | 0 <= j < 14 ensures !EntryMatches(sv, bare, j) {
      if j == 5 || j == 13 {
        EntryMismatch(sv, bare, j, 1);
      } else {
        EntryMismatch(sv, bare, j, 0);
      }
    }
    assert KnownEmulations[14].0 == "62;";
    FirstEmulationIs(sv, bare, 14);
  }

  /** Replies opening with "65;" are taken for a VT525: no earlier entry matches them. */
  lemma Vt525Scan(sv: string, bare: bool)
    requires StartsWith(sv, "65;")
    ensures FirstEmulation(sv, bare, 0) == 17 && KnownEmulations[17] == ("65;", Vt525)
  {
    assert sv[0] == '6' && sv[1] == '5' by {
      assert sv[..3] == "65;";
    }
    forall j | 0 <= j < 17 ensures !EntryMatches(sv, bare, j) {
      if j == 5 || 13 <= j {
        EntryMismatch(sv, bare, j, 1);
      } else {
        EntryMismatch(sv, bare, j, 0);
      }
    }
    FirstEmulationIs(sv, bare, 17);
  }

  /** Each prefix is kept with its trailing separator (or a digit pair), never empty. */
  lemma EmulationPrefixesNonEmpty(k: nat)
    requires k < |KnownEmulations|
    ensures 2 <= |KnownEmulations[k].0| <= 3
  {
  }
}
