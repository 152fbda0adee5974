/**
  The enumerations of the terminal detector: the emulator families it knows,
  the DEC emulation levels, the optional features and the six probe kinds.
  Declaration order follows the enumerators of `termdetect.hh`, so `Ordinal`
  gives the underlying value of each enumerator.
 */
module Terminal {

  datatype Option<+T> = None | Some(value: T)

  /** `enum struct implementations` */
  datatype Implementation =
    | Unknown | Xterm | Vte | Foot | Terminology | Contour | Rxvt | Mrxvt | Kitty
    | Alacritty | St | Konsole | Eterm | EmacsTerm | Qt5 | Ghostty

  /** `enum struct emulations` */
  datatype Emulation =
    | UnknownEmulation | Vt100 | Vt100Avo | Vt101 | Vt102 | Vt125 | Vt131 | Vt132
    | Vt220 | Vt240 | Vt330 | Vt340 | Vt320 | Vt382 | Vt420 | Vt510 | Vt520 | Vt525

  /** `enum features` */
  datatype Feature =
    | Col132 | Printer | Regis | Sixel | SelErase | Drcs | Udk | Nrcs | Scs | TechCharset
    | LocatorPort | StateInterrogation | Windowing | Sessions | HorScroll | AnsiColors
    | Greek | Turkish | TextLocator | Latin2 | PcTerm | SoftKeyMap | AsciiEmul
    | CaptureContour | RectEditContour | DesktopNotification | Decstbm | VertLineMarkers

  /** The six queries the detector can send. */
  datatype Probe = Da1 | Da2 | Da3 | Q | Tn | Osc702

  /** Underlying value of an `implementations` enumerator; `unknown` is the zero sentinel. */
  function ImplementationOrdinal(i: Implementation): (n: nat)
    ensures n == 0 <==> i == Unknown
    ensures n <= 15
  {
    match i
    case Unknown => 0
    case Xterm => 1
    case Vte => 2
    case Foot => 3
    case Terminology => 4
    case Contour => 5
    case Rxvt => 6
    case Mrxvt => 7
    case Kitty => 8
    case Alacritty => 9
    case St => 10
    case Konsole => 11
    case Eterm => 12
    case EmacsTerm => 13
    case Qt5 => 14
    case Ghostty => 15
  }

  /** Underlying value of an `emulations` enumerator; `unknown` is the zero sentinel. */
  function EmulationOrdinal(e: Emulation): (n: nat)
    ensures n == 0 <==> e == UnknownEmulation
    ensures n <= 17
  {
    match e
    case UnknownEmulation => 0
    case Vt100 => 1
    case Vt100Avo => 2
    case Vt101 => 3
    case Vt102 => 4
    case Vt125 => 5
    case Vt131 => 6
    case Vt132 => 7
    case Vt220 => 8
    case Vt240 => 9
    case Vt330 => 10
    case Vt340 => 11
    case Vt320 => 12
    case Vt382 => 13
    case Vt420 => 14
    case Vt510 => 15
    case Vt520 => 16
    case Vt525 => 17
  }

  /** Distinct implementations have distinct underlying values. */
  lemma ImplementationOrdinalInjective(i: Implementation, j: Implementation)
    requires ImplementationOrdinal(i) == ImplementationOrdinal(j)
    ensures i == j
  {
  }

  /** Distinct emulations have distinct underlying values. */
  lemma EmulationOrdinalInjective(e: Emulation, f: Emulation)
    requires EmulationOrdinal(e) == EmulationOrdinal(f)
    ensures e == f
  {
  }
}
