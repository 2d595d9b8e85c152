/**
  The text side of the layout files: the table of two-letter codes for the
  component kinds, the decimal fallback for a kind without a code, the
  splitting of a line into codes and the way the printer lays a grid out.
  Everything here is a value; the global maps that cache the table live in
  `GridIo.StringMaps`.
*/
module GridText {
  import opened Wrappers
  import opened ReactorTypes
  import opened ReactorModel

  /** The code table `loadStringMaps` builds, looked up by code. */
  const BY_ABBR: map<string, ComponentType> := map[
    "XX" := ComponentNone, "VV" := HeatVent, "VR" := ReactorHeatVent, "VA" := AdvancedHeatVent,
    "VC" := ComponentHeatVent, "VO" := OverclockedHeatVent, "EE" := HeatExchanger,
    "EA" := AdvancedHeatExchanger, "ER" := CoreHeatExchanger, "EC" := ComponentHeatExchanger,
    "C1" := CoolantCell10, "C3" := CoolantCell30, "C6" := CoolantCell60,
    "CR" := CondensatorRsh, "CL" := CondensatorLzh, "U1" := UraniumCell, "U2" := DualUraniumCell,
    "U4" := QuadUraniumCell, "NN" := NeutronReflector, "NT" := ThickNeutronReflector,
    "PP" := ReactorPlating, "PC" := ContainmentReactorPlating, "PH" := HeatCapacityReactorPlating]

  /** The same table looked up by kind, as the second map holds it. */
  const ABBR_BY_TYPE: map<ComponentType, string> := map[
    ComponentNone := "XX", HeatVent := "VV", ReactorHeatVent := "VR", AdvancedHeatVent := "VA",
    ComponentHeatVent := "VC", OverclockedHeatVent := "VO", HeatExchanger := "EE",
    AdvancedHeatExchanger := "EA", CoreHeatExchanger := "ER", ComponentHeatExchanger := "EC",
    CoolantCell10 := "C1", CoolantCell30 := "C3", CoolantCell60 := "C6",
    CondensatorRsh := "CR", CondensatorLzh := "CL", UraniumCell := "U1", DualUraniumCell := "U2",
    QuadUraniumCell := "U4", NeutronReflector := "NN", ThickNeutronReflector := "NT",
    ReactorPlating := "PP", ContainmentReactorPlating := "PC", HeatCapacityReactorPlating := "PH"]

  // ---------------------------------------------------------------------
  // Decimal text, as `std::to_string` writes a non-negative int
  // ---------------------------------------------------------------------

  predicate IsDigit(c: char)
  {
    '0' <= c <= '9'
  }

  function DigitChar(d: nat): (c: char)
    requires d < 10
    ensures IsDigit(c) && c as int - '0' as int == d
  {
    ('0' as int + d) as char
  }

  /** The decimal digits of `n`, most significant first, without leading zeros. */
  function DecimalString(n: nat): (s: string)
    ensures |s| > 0 && forall i :: 0 <= i < |s| ==> IsDigit(s[i])
    ensures s[0] == '0' <==> n == 0
  {
    if n < 10 then [DigitChar(n)] else DecimalString(n / 10) + [DigitChar(n % 10)]
  }

  /** The number a string of decimal digits denotes. */
  function DigitsValue(s: string): nat
    requires forall i :: 0 <= i < |s| ==> IsDigit(s[i])
  {
    if s == [] then 0
    else
      assert IsDigit(s[|s| - 1]);
      DigitsValue(s[..|s| - 1]) * 10 + (s[|s| - 1] as int - '0' as int)
  }

  /** Reading back what `DecimalString` writes gives the number again. */
  lemma {:induction false} DecimalRoundTrip(n: nat)
    ensures DigitsValue(DecimalString(n)) == n
  {
    var s := DecimalString(n);
    if n >= 10 {
      DecimalRoundTrip(n / 10);
      assert s[..|s| - 1] == DecimalString(n / 10);
    }
  }

  // ---------------------------------------------------------------------
  // The code table
  // ---------------------------------------------------------------------

  /** The table by kind: each kind's two-letter code; the count marker has none. */
  function Code(t: ComponentType): Option<string>
  {
    match t
    case ComponentNone => Some("XX")
    case HeatVent => Some("VV")
    case ReactorHeatVent => Some("VR")
    case AdvancedHeatVent => Some("VA")
    case ComponentHeatVent => Some("VC")
    case OverclockedHeatVent => Some("VO")
    case HeatExchanger => Some("EE")
    case AdvancedHeatExchanger => Some("EA")
    case CoreHeatExchanger => Some("ER")
    case ComponentHeatExchanger => Some("EC")
    case CoolantCell10 => Some("C1")
    case CoolantCell30 => Some("C3")
    case CoolantCell60 => Some("C6")
    case CondensatorRsh => Some("CR")
    case CondensatorLzh => Some("CL")
    case UraniumCell => Some("U1")
    case DualUraniumCell => Some("U2")
    case QuadUraniumCell => Some("U4")
    case NeutronReflector => Some("NN")
    case ThickNeutronReflector => Some("NT")
    case ReactorPlating => Some("PP")
    case ContainmentReactorPlating => Some("PC")
    case HeatCapacityReactorPlating => Some("PH")
    case ComponentCount => None
  }

  /** `getComponentTypeAbbr` once the table is loaded: the kind's code, or its number in decimal. */
  function AbbrOf(t: ComponentType): (s: string)
    ensures |s| > 0
  {
    match Code(t)
    case Some(c) => c
    case None => DecimalString(Ordinal(t))
  }

  /** The kind a code names; an unknown code names COMPONENT_NONE, the value a new map entry gets. */
  function TypeOf(s: string): (t: ComponentType)
    ensures s !in BY_ABBR ==> t == ComponentNone
  {
    if s in BY_ABBR then BY_ABBR[s] else ComponentNone
  }

  /** The by-kind map the loader builds holds exactly the table by kind. */
  lemma ByKindIsTable(t: ComponentType)
    ensures t in ABBR_BY_TYPE <==> Code(t).Some?
    ensures t in ABBR_BY_TYPE ==> ABBR_BY_TYPE[t] == Code(t).value
  {
    EmptyAndVentKinds();
    ExchangerAndCoolantKinds();
    FuelReflectorAndPlatingKinds();
    if t == ComponentCount {
      assert t !in ABBR_BY_TYPE;
    }
  }

  /** An empty cell and the five vents have their codes in the by-kind map. */
  lemma EmptyAndVentKinds()
    ensures ComponentNone in ABBR_BY_TYPE && ABBR_BY_TYPE[ComponentNone] == "XX"
      && HeatVent in ABBR_BY_TYPE && ABBR_BY_TYPE[HeatVent] == "VV"
      && ReactorHeatVent in ABBR_BY_TYPE && ABBR_BY_TYPE[ReactorHeatVent] == "VR"
      && AdvancedHeatVent in ABBR_BY_TYPE && ABBR_BY_TYPE[AdvancedHeatVent] == "VA"
      && ComponentHeatVent in ABBR_BY_TYPE && ABBR_BY_TYPE[ComponentHeatVent] == "VC"
      && OverclockedHeatVent in ABBR_BY_TYPE && ABBR_BY_TYPE[OverclockedHeatVent] == "VO"
  {
  }

  /** The heat exchangers, coolant cells and condensators have their codes in the by-kind map. */
  lemma ExchangerAndCoolantKinds()
    ensures HeatExchanger in ABBR_BY_TYPE && ABBR_BY_TYPE[HeatExchanger] == "EE"
      && AdvancedHeatExchanger in ABBR_BY_TYPE && ABBR_BY_TYPE[AdvancedHeatExchanger] == "EA"
      && CoreHeatExchanger in ABBR_BY_TYPE && ABBR_BY_TYPE[CoreHeatExchanger] == "ER"
      && ComponentHeatExchanger in ABBR_BY_TYPE && ABBR_BY_TYPE[ComponentHeatExchanger] == "EC"
      && CoolantCell10 in ABBR_BY_TYPE && ABBR_BY_TYPE[CoolantCell10] == "C1"
      && CoolantCell30 in ABBR_BY_TYPE && ABBR_BY_TYPE[CoolantCell30] == "C3"
      && CoolantCell60 in ABBR_BY_TYPE && ABBR_BY_TYPE[CoolantCell60] == "C6"
      && CondensatorRsh in ABBR_BY_TYPE && ABBR_BY_TYPE[CondensatorRsh] == "CR"
      && CondensatorLzh in ABBR_BY_TYPE && ABBR_BY_TYPE[CondensatorLzh] == "CL"
  {
  }

  /** The fuel rods, reflectors and platings have their codes in the by-kind map. */
  lemma FuelReflectorAndPlatingKinds()
    ensures UraniumCell in ABBR_BY_TYPE && ABBR_BY_TYPE[UraniumCell] == "U1"
      && DualUraniumCell in ABBR_BY_TYPE && ABBR_BY_TYPE[DualUraniumCell] == "U2"
      && QuadUraniumCell in ABBR_BY_TYPE && ABBR_BY_TYPE[QuadUraniumCell] == "U4"
      && NeutronReflector in ABBR_BY_TYPE && ABBR_BY_TYPE[NeutronReflector] == "NN"
      && ThickNeutronReflector in ABBR_BY_TYPE && ABBR_BY_TYPE[ThickNeutronReflector] == "NT"
      && ReactorPlating in ABBR_BY_TYPE && ABBR_BY_TYPE[ReactorPlating] == "PP"
      && ContainmentReactorPlating in ABBR_BY_TYPE && ABBR_BY_TYPE[ContainmentReactorPlating] == "PC"
      && HeatCapacityReactorPlating in ABBR_BY_TYPE && ABBR_BY_TYPE[HeatCapacityReactorPlating] == "PH"
  {
  }

  /** The code of an empty cell and those of the two plain vents name their kinds in the by-code map. */
  lemma EmptyAndVentCodes()
    ensures TypeOf("XX") == ComponentNone
      && TypeOf("VV") == HeatVent
      && TypeOf("VR") == ReactorHeatVent
  {
  }

  /** The codes of the other three vents name their kinds in the by-code map. */
  lemma OtherVentCodes()
    ensures TypeOf("VA") == AdvancedHeatVent
      && TypeOf("VC") == ComponentHeatVent
      && TypeOf("VO") == OverclockedHeatVent
  {
  }

  /** The codes of the four heat exchangers name their kinds in the by-code map. */
  lemma ExchangerCodes()
    ensures TypeOf("EE") == HeatExchanger
      && TypeOf("EA") == AdvancedHeatExchanger
      && TypeOf("ER") == CoreHeatExchanger
      && TypeOf("EC") == ComponentHeatExchanger
  {
  }

  /** The codes of the three coolant cells and the two condensators name their kinds in the by-code map. */
  lemma CoolantCodes()
    ensures TypeOf("C1") == CoolantCell10
      && TypeOf("C3") == CoolantCell30
      && TypeOf("C6") == CoolantCell60
      && TypeOf("CR") == CondensatorRsh
      && TypeOf("CL") == CondensatorLzh
  {
  }

  /** The codes of the three fuel rods and the two reflectors name their kinds in the by-code map. */
  lemma FuelAndReflectorCodes()
    ensures TypeOf("U1") == UraniumCell
      && TypeOf("U2") == DualUraniumCell
      && TypeOf("U4") == QuadUraniumCell
      && TypeOf("NN") == NeutronReflector
      && TypeOf("NT") == ThickNeutronReflector
  {
  }

  /** The codes of the three platings name their kinds in the by-code map. */
  lemma PlatingCodes()
    ensures TypeOf("PP") == ReactorPlating
      && TypeOf("PC") == ContainmentReactorPlating
      && TypeOf("PH") == HeatCapacityReactorPlating
  {
  }

  /** Every code in the table is two characters, a capital letter first. */
  lemma CodeShape(s: string)
    requires s in BY_ABBR
    ensures |s| == 2 && 'A' <= s[0] <= 'Z' && !IsSeparator(s[1])
  {
  }

  /** Kind to code to kind: every kind comes back, except the count marker, which has no code and reads back as none. */
  lemma CodeRoundTrip(t: ComponentType)
    ensures TypeOf(AbbrOf(t)) == if t == ComponentCount then ComponentNone else t
  {
    EmptyAndVentCodes();
    OtherVentCodes();
    ExchangerCodes();
    CoolantCodes();
    FuelAndReflectorCodes();
    PlatingCodes();
    if t == ComponentCount {
      UnknownKindCode();
    }
  }

  /** A printed kind reads back as the kind the grid loader would build, none for the count marker. */
  lemma ReadsBack(t: ComponentType)
    ensures TypeOf(AbbrOf(t)) == Normalize(t)
  {
    CodeRoundTrip(t);
  }

  /** Code to kind to code: every code of the table comes back, so no two codes share a kind. */
  lemma KindRoundTrip(s: string)
    requires s in BY_ABBR
    ensures AbbrOf(TypeOf(s)) == s
  {
  }

  /** The count marker prints as its number, "23", which is not a code; no decimal number is. */
  lemma UnknownKindCode()
    ensures AbbrOf(ComponentCount) == "23" && "23" !in BY_ABBR
    ensures forall n: nat :: DecimalString(n) !in BY_ABBR
  {
    assert DecimalString(23) == DecimalString(2) + ['3'];
    forall n: nat
      ensures DecimalString(n) !in BY_ABBR
    {
      if DecimalString(n) in BY_ABBR {
        CodeShape(DecimalString(n));
      }
    }
  }

  // ---------------------------------------------------------------------
  // Lines and tokens
  // ---------------------------------------------------------------------

  /** The two characters `loadTypesGrid` splits on. */
  predicate IsSeparator(c: char)
  {
    c == ' ' || c == '\t'
  }

  /** A nonempty run of characters other than space and tab. */
  predicate IsWord(w: string)
  {
    |w| > 0 && forall i :: 0 <= i < |w| ==> !IsSeparator(w[i])
  }

  /** `find_first_not_of(" \t", from)`: the first index from `from` on without a separator; None for npos. */
  function FindFirstNotOf(s: string, from: nat): (r: Option<nat>)
    ensures r.Some? ==> (from <= r.value < |s| && !IsSeparator(s[r.value])
                         && forall i :: from <= i < r.value ==> IsSeparator(s[i]))
    ensures r.None? ==> forall i :: from <= i < |s| ==> IsSeparator(s[i])
    decreases |s| - from
  {
    if from >= |s| then None
    else if !IsSeparator(s[from]) then Some(from)
    else FindFirstNotOf(s, from + 1)
  }

  /** `find_first_of(" \t", from)`: the first index from `from` on holding a separator; None for npos. */
  function FindFirstOf(s: string, from: nat): (r: Option<nat>)
    ensures r.Some? ==> (from <= r.value < |s| && IsSeparator(s[r.value])
                         && forall i :: from <= i < r.value ==> !IsSeparator(s[i]))
    ensures r.None? ==> forall i :: from <= i < |s| ==> !IsSeparator(s[i])
    decreases |s| - from
  {
    if from >= |s| then None
    else if IsSeparator(s[from]) then Some(from)
    else FindFirstOf(s, from + 1)
  }

  /** The length of the run of non-separators a string starts with. */
  function WordLength(s: string): (n: nat)
    ensures n <= |s| && (n < |s| ==> IsSeparator(s[n]))
    ensures forall i :: 0 <= i < n ==> !IsSeparator(s[i])
  {
    if s == [] || IsSeparator(s[0]) then 0 else 1 + WordLength(s[1..])
  }

  /**
    The tokens of a line, defined independently of the scanning loop: its
    maximal runs of characters other than space and tab, left to right.
  */
  function Tokens(s: string): (r: seq<string>)
    ensures forall k :: 0 <= k < |r| ==> IsWord(r[k])
    decreases |s|
  {
    if s == [] then []
    else if IsSeparator(s[0]) then Tokens(s[1..])
    else
      var n := WordLength(s);
      [s[..n]] + Tokens(s[n..])
  }

  /** Separators in front of a line's rest add no token. */
  lemma {:induction false} TokensSkip(s: string, pos: nat, start: nat)
    requires pos <= start <= |s|
    requires forall i :: pos <= i < start ==> IsSeparator(s[i])
    ensures Tokens(s[pos..]) == Tokens(s[start..])
    decreases start - pos
  {
    if pos < start {
      assert s[pos..][1..] == s[pos + 1..];
      TokensSkip(s, pos + 1, start);
    }
  }

  /** A maximal run starting the rest of a line is its first token. */
  lemma TokensWord(s: string, start: nat, end: nat)
    requires start < end <= |s| && (end < |s| ==> IsSeparator(s[end]))
    requires forall i :: start <= i < end ==> !IsSeparator(s[i])
    ensures Tokens(s[start..]) == [s[start..end]] + Tokens(s[end..])
  {
    var t := s[start..];
    var n := end - start;
    WordLengthIs(t, n);
    assert t[..n] == s[start..end] && t[n..] == s[end..];
  }

  /**
    One pass of the scanning loop of `loadTypesGrid`: from `pos`, either no
    token is left, or the token runs from the first non-separator to the
    next separator or the end of the line.
  */
  lemma ScanStep(s: string, pos: nat)
    requires pos <= |s|
    ensures FindFirstNotOf(s, pos).None? ==> Tokens(s[pos..]) == []
    ensures FindFirstNotOf(s, pos).Some? ==>
      var start := FindFirstNotOf(s, pos).value;
      var end := if FindFirstOf(s, start).None? then |s| else FindFirstOf(s, start).value;
      start < end <= |s| && Tokens(s[pos..]) == [s[start..end]] + Tokens(s[end..])
  {
    var r := FindFirstNotOf(s, pos);
    if r.None? {
      TokensSkip(s, pos, |s|);
      assert s[|s|..] == [];
    } else {
      var start := r.value;
      var end := if FindFirstOf(s, start).None? then |s| else FindFirstOf(s, start).value;
      TokensSkip(s, pos, start);
      TokensWord(s, start, end);
    }
  }

  /** The words of a row with single spaces between them, as the printer writes a row. */
  function Join(ws: seq<string>): string
  {
    if ws == [] then ""
    else if |ws| == 1 then ws[0]
    else Join(ws[..|ws| - 1]) + " " + ws[|ws| - 1]
  }

  /** A token never spans a separator: the tokens of `a`, a separator and `b` are those of `a` then those of `b`. */
  lemma {:induction false} TokensSplit(a: string, c: char, b: string)
    requires IsSeparator(c)
    ensures Tokens(a + [c] + b) == Tokens(a) + Tokens(b)
    decreases |a|
  {
    var s := a + [c] + b;
    if a == [] {
      assert s[1..] == b;
    } else if IsSeparator(a[0]) {
      assert s[1..] == a[1..] + [c] + b;
      TokensSplit(a[1..], c, b);
    } else {
      var n := WordLength(a);
      assert WordLength(s) == n by {
        WordLengthIs(s, n);
      }
      assert s[..n] == a[..n];
      assert s[n..] == a[n..] + [c] + b;
      TokensSplit(a[n..], c, b);
    }
  }

  /** The run length is the position of the first separator, or the whole length. */
  lemma WordLengthIs(s: string, n: nat)
    requires n <= |s| && (n < |s| ==> IsSeparator(s[n]))
    requires forall i :: 0 <= i < n ==> !IsSeparator(s[i])
    ensures WordLength(s) == n
  {
  }

  /** A word is its own single token. */
  lemma TokensOfWord(w: string)
    requires IsWord(w)
    ensures Tokens(w) == [w]
  {
    WordLengthIs(w, |w|);
    assert w[..|w|] == w && w[|w|..] == [];
  }

  /** Splitting a joined row gives its words back. */
  lemma {:induction false} TokensOfJoin(ws: seq<string>)
    requires forall k :: 0 <= k < |ws| ==> IsWord(ws[k])
    ensures Tokens(Join(ws)) == ws
    decreases |ws|
  {
    if |ws| == 1 {
      TokensOfWord(ws[0]);
    } else if |ws| > 1 {
      var init := ws[..|ws| - 1];
      TokensOfJoin(init);
      TokensSplit(Join(init), ' ', ws[|ws| - 1]);
      assert Join(ws) == Join(init) + [' '] + ws[|ws| - 1];
      TokensOfWord(ws[|ws| - 1]);
    }
  }

  // ---------------------------------------------------------------------
  // Grids of lines
  // ---------------------------------------------------------------------

  /** The kind of each code, in order. */
  function TypesOf(ws: seq<string>): (r: seq<ComponentType>)
    ensures |r| == |ws| && forall k :: 0 <= k < |ws| ==> r[k] == TypeOf(ws[k])
  {
    seq(|ws|, k requires 0 <= k < |ws| => TypeOf(ws[k]))
  }

  lemma TypesOfAppend(a: seq<string>, b: seq<string>)
    ensures TypesOf(a + b) == TypesOf(a) + TypesOf(b)
  {
  }

  /** All tokens of all lines, line after line. */
  function GridTokens(lines: seq<string>): (r: seq<string>)
    ensures forall k :: 0 <= k < |r| ==> IsWord(r[k])
  {
    if lines == [] then [] else GridTokens(lines[..|lines| - 1]) + Tokens(lines[|lines| - 1])
  }

  /** The number of lines that hold a token: the rows of the grid. */
  function RowCount(lines: seq<string>): (r: nat)
    ensures r <= |lines|
    ensures r == 0 <==> forall k :: 0 <= k < |lines| ==> Tokens(lines[k]) == []
  {
    if lines == [] then 0
    else RowCount(lines[..|lines| - 1]) + (if Tokens(lines[|lines| - 1]) != [] then 1 else 0)
  }

  /** The token count of the last line that holds a token, 0 when there is none. */
  function LastWidth(lines: seq<string>): (r: nat)
    ensures r == 0 <==> forall k :: 0 <= k < |lines| ==> Tokens(lines[k]) == []
    ensures r > 0 ==> exists k :: (0 <= k < |lines| && |Tokens(lines[k])| == r
                                   && forall j :: k < j < |lines| ==> Tokens(lines[j]) == [])
  {
    if lines == [] then 0
    else if Tokens(lines[|lines| - 1]) != [] then |Tokens(lines[|lines| - 1])|
    else LastWidth(lines[..|lines| - 1])
  }

  /** No line read yet: no token, no row, no width. */
  lemma GridStart(lines: seq<string>)
    ensures GridTokens(lines[..0]) == [] && RowCount(lines[..0]) == 0 && LastWidth(lines[..0]) == 0
  {
    assert lines[..0] == [];
  }

  /** One more line of a file: its tokens follow, and it counts as a row, setting the width, when it has any. */
  lemma GridStep(lines: seq<string>, k: nat)
    requires k < |lines|
    ensures var next := lines[..k + 1];
      GridTokens(next) == GridTokens(lines[..k]) + Tokens(lines[k])
      && RowCount(next) == RowCount(lines[..k]) + (if Tokens(lines[k]) != [] then 1 else 0)
      && LastWidth(next) == (if Tokens(lines[k]) != [] then |Tokens(lines[k])| else LastWidth(lines[..k]))
      && (|lines[k]| == 0 ==> Tokens(lines[k]) == [])
  {
    assert lines[..k + 1][..k] == lines[..k];
  }

  /** What the printer writes for the `n`-th kind: a space unless it opens a row, its code, a newline if it closes one. */
  function Entry(n: nat, code: string, width: int): string
    requires width != 0
  {
    (if CMod(n, width) != 0 then " " else "") + code + (if CMod(n, width) == width - 1 then "\n" else "")
  }

  /** The text the printer writes for a sequence of codes. */
  function Layout(codes: seq<string>, width: int): string
    requires width != 0
  {
    if codes == [] then "" else Layout(codes[..|codes| - 1], width) + Entry(|codes| - 1, codes[|codes| - 1], width)
  }

  /** The codes the printer writes, one per kind. */
  function Codes(types: seq<ComponentType>): (r: seq<string>)
    ensures |r| == |types| && forall k :: 0 <= k < |types| ==> r[k] == AbbrOf(types[k])
  {
    seq(|types|, k requires 0 <= k < |types| => AbbrOf(types[k]))
  }

  /** The rows of a `width` by `height` grid of codes, each joined with single spaces. */
  function Rows(codes: seq<string>, width: nat, height: nat): (r: seq<string>)
    requires width > 0 && |codes| == width * height
    ensures |r| == height
  {
    if height == 0 then []
    else
      MulAtLeast(height, width);
      Rows(codes[..|codes| - width], width, height - 1) + [Join(codes[|codes| - width..])]
  }

  /** Complete lines: each followed by a newline. */
  function Unlines(lines: seq<string>): string
  {
    if lines == [] then "" else Unlines(lines[..|lines| - 1]) + lines[|lines| - 1] + "\n"
  }

  // ---------------------------------------------------------------------
  // The printed layout
  // ---------------------------------------------------------------------

  /** `x % w` for `x = q * w + r` with `0 <= r < w` is `r`. */
  lemma ModOf(x: nat, w: int, q: int, r: int)
    requires w > 0 && 0 <= r < w && x == q * w + r
    ensures CMod(x, w) == r
  {
    var q0, r0 := x / w, x % w;
    var d := q - q0;
    assert d * w == r0 - r;
    if d >= 1 {
      MulAtLeast(d, w);
    } else if d <= -1 {
      MulAtLeast(-d, w);
    }
  }

  /**
    Printing the first `j` codes of a row after `p` codes that fill whole
    rows appends them joined, and a newline once the row is full.
  */
  lemma {:induction false} LayoutRow(codes: seq<string>, width: nat, p: nat, j: nat)
    requires 0 < j <= width && CMod(p, width) == 0 && |codes| == p + j
    ensures Layout(codes, width) == Layout(codes[..p], width) + Join(codes[p..]) + (if j == width then "\n" else "")
    decreases j
  {
    var n := |codes| - 1;
    var c := codes[n];
    var row := codes[p..];
    var nl := if j == width then "\n" else "";
    ModShift(p, width, j - 1);
    assert Layout(codes, width) == Layout(codes[..n], width) + Entry(n, c, width);
    assert Entry(n, c, width) == (if j == 1 then "" else " ") + c + nl;
    hide CMod, Entry, Layout;
    if j == 1 {
      assert codes[..n] == codes[..p];
      assert row == [c];
      assert Layout(codes, width) == Layout(codes[..p], width) + ("" + c + nl);
      assert "" + c + nl == c + nl;
    } else {
      LayoutRow(codes[..n], width, p, j - 1);
      assert codes[..n][..p] == codes[..p];
      assert row[..j - 1] == codes[..n][p..] && row[j - 1] == c;
      var before := Join(row[..j - 1]);
      assert Join(row) == before + " " + c;
      assert Layout(codes[..n], width) == Layout(codes[..p], width) + before + "";
      Regroup(Layout(codes[..p], width), before, c, nl);
    }
  }

  /** Moving the separating space and the code of an entry into the row. */
  lemma Regroup(l: string, before: string, c: string, nl: string)
    ensures l + before + "" + (" " + c + nl) == l + (before + " " + c) + nl
  {
  }

  /** Past a multiple of the width, the column is the offset. */
  lemma ModShift(p: nat, width: nat, r: nat)
    requires 0 <= r < width && CMod(p, width) == 0
    ensures CMod(p + r, width) == r
  {
    ModOf(p + r, width, p / width, r);
  }

  /** The last row of a `width` by `height` grid starts at a multiple of the width. */
  lemma LastRow(width: nat, height: nat)
    requires width > 0 && height > 0
    ensures width * height - width == width * (height - 1) >= 0
    ensures CMod(width * height - width, width) == 0
  {
    var q := height - 1;
    assert width * height == q * width + width;
    ModOf(width * height - width, width, q, 0);
  }

  /** A full `width` by `height` grid prints as its rows, each a complete line. */
  lemma {:induction false} LayoutRows(codes: seq<string>, width: nat, height: nat)
    requires width > 0 && |codes| == width * height
    ensures Layout(codes, width) == Unlines(Rows(codes, width, height))
  {
    if height > 0 {
      MulAtLeast(height, width);
      var p := |codes| - width;
      var init := Rows(codes[..p], width, height - 1);
      var rows := Rows(codes, width, height);
      assert rows == init + [Join(codes[p..])];
      assert rows[..height - 1] == init;
      LastRow(width, height);
      hide Layout, Join, Rows, CMod;
      LayoutRows(codes[..p], width, height - 1);
      LayoutRow(codes, width, p, width);
      assert Unlines(rows) == Unlines(init) + Join(codes[p..]) + "\n";
    }
  }

  /** Reading the rows of a grid gives back its codes. */
  lemma {:induction false} RowsTokens(codes: seq<string>, width: nat, height: nat)
    requires width > 0 && |codes| == width * height
    requires forall k :: 0 <= k < |codes| ==> IsWord(codes[k])
    ensures GridTokens(Rows(codes, width, height)) == codes
  {
    if height > 0 {
      MulAtLeast(height, width);
      var p := |codes| - width;
      var rows := Rows(codes, width, height);
      var init := Rows(codes[..p], width, height - 1);
      assert rows == init + [Join(codes[p..])];
      assert rows[..height - 1] == init;
      RowsTokens(codes[..p], width, height - 1);
      TokensOfJoin(codes[p..]);
      assert GridTokens(rows) == GridTokens(init) + Tokens(Join(codes[p..]));
      assert codes == codes[..p] + codes[p..];
    }
  }

  /** Every row of a grid holds `width` tokens, so the rows give back its width and height. */
  lemma {:induction false} RowsShape(codes: seq<string>, width: nat, height: nat)
    requires width > 0 && |codes| == width * height
    requires forall k :: 0 <= k < |codes| ==> IsWord(codes[k])
    ensures var rows := Rows(codes, width, height);
      RowCount(rows) == height && LastWidth(rows) == (if height == 0 then 0 else width)
  {
    if height > 0 {
      MulAtLeast(height, width);
      var p := |codes| - width;
      var rows := Rows(codes, width, height);
      RowsShape(codes[..p], width, height - 1);
      TokensOfJoin(codes[p..]);
      assert rows[..height - 1] == Rows(codes[..p], width, height - 1);
    }
  }

  /** Every kind prints as a single token. */
  lemma AbbrIsWord(t: ComponentType)
    ensures IsWord(AbbrOf(t))
  {
    if Code(t).Some? {
      CodeRoundTrip(t);
      CodeShape(AbbrOf(t));
    }
  }

  /**
    Printing a full grid and reading the printed lines back: the text is
    `height` complete lines, and loading them gives every kind back (the
    count reads back as none), a width of `width` and a height of `height`.
  */
  lemma GridRoundTrip(types: seq<ComponentType>, width: nat, height: nat)
    requires width > 0 && height > 0 && |types| == width * height
    ensures var rows := Rows(Codes(types), width, height);
      Layout(Codes(types), width) == Unlines(rows)
      && TypesOf(GridTokens(rows)) == seq(|types|, k requires 0 <= k < |types| => Normalize(types[k]))
      && RowCount(rows) == height && LastWidth(rows) == width
  {
    var codes := Codes(types);
    ReadBackAll(types);
    hide Normalize, Codes, TypesOf, Layout, Rows, Unlines, GridTokens, RowCount, LastWidth;
    LayoutRows(codes, width, height);
    RowsTokens(codes, width, height);
    RowsShape(codes, width, height);
  }

  /** The printed codes are single tokens and read back as the kinds the loader would build. */
  lemma ReadBackAll(types: seq<ComponentType>)
    ensures forall k :: 0 <= k < |types| ==> IsWord(Codes(types)[k])
    ensures TypesOf(Codes(types)) == seq(|types|, k requires 0 <= k < |types| => Normalize(types[k]))
  {
    var codes := Codes(types);
    forall k | 0 <= k < |codes|
      ensures IsWord(codes[k]) && TypeOf(codes[k]) == Normalize(types[k])
    {
      AbbrIsWord(types[k]);
      ReadsBack(types[k]);
    }
  }
}
