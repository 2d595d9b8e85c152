/**
  The layout file reader and the grid printer of the command line tool,
  with the two global maps they share: code to kind, and kind to code. The
  maps start empty, are filled with the code table on first use, and the
  code-to-kind map also receives every unknown code that is looked up,
  mapped to COMPONENT_NONE. The maps are the fields of one `StringMaps`
  object; a file is given as its list of complete lines, and what the
  printer writes to standard output is the string it returns.
*/
module GridIo {
  import opened Wrappers
  import opened ReactorTypes
  import opened GridText

  /** The code-to-kind map after `loadStringMaps`: the table if it was empty, unchanged otherwise. */
  function Loading(m: map<string, ComponentType>): map<string, ComponentType>
  {
    if |m| == 0 then BY_ABBR else m
  }

  /** Loading twice is loading once: the table is never empty. */
  lemma LoadingIdempotent(m: map<string, ComponentType>)
    ensures |Loading(m)| != 0 && Loading(Loading(m)) == Loading(m)
  {
    assert "XX" in BY_ABBR;
  }

  /** The code map after each code of `ws` is looked up in turn: every code is entered with the kind it names. */
  function Entered(m: map<string, ComponentType>, ws: seq<string>): map<string, ComponentType>
  {
    if ws == [] then m else Entered(m, ws[..|ws| - 1])[ws[|ws| - 1] := TypeOf(ws[|ws| - 1])]
  }

  lemma EnteredStep(m: map<string, ComponentType>, ws: seq<string>, w: string)
    ensures Entered(m, ws + [w]) == Entered(m, ws)[w := TypeOf(w)]
  {
    assert (ws + [w])[..|ws|] == ws;
  }

  /** Looking up the codes of `a` and then those of `b` is looking up those of `a + b`. */
  lemma {:induction false} EnteredAppend(m: map<string, ComponentType>, a: seq<string>, b: seq<string>)
    ensures Entered(m, a + b) == Entered(Entered(m, a), b)
    decreases |b|
  {
    if b != [] {
      var init := b[..|b| - 1];
      EnteredAppend(m, a, init);
      assert (a + b)[..|a + b| - 1] == a + init;
    } else {
      assert a + b == a;
    }
  }

  lemma Append3<T>(a: seq<T>, b: seq<T>, c: seq<T>)
    ensures a + b + c == a + (b + c)
  {
  }

  class StringMaps {
    var componentTypeByAbbr: map<string, ComponentType>
    var abbrByComponentType: map<ComponentType, string>

    /**
      The table is loaded: the kind-to-code map is the table, and the
      code-to-kind map holds every code of the table and maps every code it
      holds to the kind the table gives it (COMPONENT_NONE when unknown).
    */
    predicate Loaded()
      reads this
    {
      abbrByComponentType == ABBR_BY_TYPE
      && BY_ABBR.Keys <= componentTypeByAbbr.Keys
      && forall s :: s in componentTypeByAbbr ==> componentTypeByAbbr[s] == TypeOf(s)
    }

    /** The maps as the program starts, or loaded. */
    predicate Valid()
      reads this
    {
      (componentTypeByAbbr == map[] && abbrByComponentType == map[]) || Loaded()
    }

    /** The two maps as the program starts: empty. */
    constructor ()
      ensures Valid() && componentTypeByAbbr == map[] && abbrByComponentType == map[]
    {
      componentTypeByAbbr := map[];
      abbrByComponentType := map[];
    }

    /** `addComponentString`: enters one code in both maps. */
    method AddComponentString(t: ComponentType, abbr: string)
      modifies this
      ensures componentTypeByAbbr == old(componentTypeByAbbr)[abbr := t]
      ensures abbrByComponentType == old(abbrByComponentType)[t := abbr]
    {
      componentTypeByAbbr := componentTypeByAbbr[abbr := t];
      abbrByComponentType := abbrByComponentType[t := abbr];
    }

    /**
      `loadStringMaps`: fills the maps with the table unless the code map
      already holds something; a second call changes nothing.
    */
    method LoadStringMaps()
      requires Valid()
      modifies this
      ensures Loaded()
      ensures componentTypeByAbbr == Loading(old(componentTypeByAbbr))
      ensures |old(componentTypeByAbbr)| != 0 ==> unchanged(this)
    {
      if |componentTypeByAbbr| != 0 {
        return;
      }
      AddComponentString(ComponentNone, "XX");
      AddComponentString(HeatVent, "VV");
      AddComponentString(ReactorHeatVent, "VR");
      AddComponentString(AdvancedHeatVent, "VA");
      AddComponentString(ComponentHeatVent, "VC");
      AddComponentString(OverclockedHeatVent, "VO");
      AddComponentString(HeatExchanger, "EE");
      AddComponentString(AdvancedHeatExchanger, "EA");
      AddComponentString(CoreHeatExchanger, "ER");
      AddComponentString(ComponentHeatExchanger, "EC");
      AddComponentString(CoolantCell10, "C1");
      AddComponentString(CoolantCell30, "C3");
      AddComponentString(CoolantCell60, "C6");
      AddComponentString(CondensatorRsh, "CR");
      AddComponentString(CondensatorLzh, "CL");
      AddComponentString(UraniumCell, "U1");
      AddComponentString(DualUraniumCell, "U2");
      AddComponentString(QuadUraniumCell, "U4");
      AddComponentString(NeutronReflector, "NN");
      AddComponentString(ThickNeutronReflector, "NT");
      AddComponentString(ReactorPlating, "PP");
      AddComponentString(ContainmentReactorPlating, "PC");
      AddComponentString(HeatCapacityReactorPlating, "PH");
    }

    /** `getComponentTypeAbbr`: the kind's code, or its number in decimal when the table has none. */
    method GetComponentTypeAbbr(t: ComponentType) returns (s: string)
      requires Valid()
      modifies this
      ensures Loaded() && componentTypeByAbbr == Loading(old(componentTypeByAbbr))
      ensures s == AbbrOf(t)
    {
      LoadStringMaps();
      ByKindIsTable(t);
      if t !in abbrByComponentType {
        s := DecimalString(Ordinal(t));
      } else {
        s := abbrByComponentType[t];
      }
    }

    /**
      `getComponentTypeByAbbr`: the kind a code names. Like the map's
      `operator[]`, an unknown code is entered with COMPONENT_NONE and that
      is the answer; from then on the code counts as valid.
    */
    method GetComponentTypeByAbbr(str: string) returns (t: ComponentType)
      requires Valid()
      modifies this
      ensures Loaded() && componentTypeByAbbr == Loading(old(componentTypeByAbbr))[str := TypeOf(str)]
      ensures t == TypeOf(str) && str in componentTypeByAbbr
    {
      hide BY_ABBR, ABBR_BY_TYPE, TypeOf;
      LoadStringMaps();
      if str !in componentTypeByAbbr {
        componentTypeByAbbr := componentTypeByAbbr[str := ComponentNone];
      }
      t := componentTypeByAbbr[str];
    }

    /** `isValidComponentTypeAbbr`: whether the code map holds the code; every table code does. */
    method IsValidComponentTypeAbbr(str: string) returns (valid: bool)
      requires Valid()
      modifies this
      ensures Loaded() && componentTypeByAbbr == Loading(old(componentTypeByAbbr))
      ensures valid <==> str in componentTypeByAbbr
      ensures str in BY_ABBR ==> valid
    {
      LoadStringMaps();
      valid := str in componentTypeByAbbr;
    }

    /**
      The `for(;;)` loop of `loadTypesGrid` over one line: each maximal run
      of characters other than space and tab is a code, its kind is
      appended, and the code is entered in the code map; `num` counts the
      codes.
    */
    method LoadLine(line: string, components: seq<ComponentType>) returns (out: seq<ComponentType>, num: nat)
      requires Loaded()
      modifies this
      ensures Loaded() && componentTypeByAbbr == Entered(old(componentTypeByAbbr), Tokens(line))
      ensures out == components + TypesOf(Tokens(line)) && num == |Tokens(line)|
    {
      hide BY_ABBR, ABBR_BY_TYPE, TypeOf, Tokens, FindFirstNotOf, FindFirstOf;
      ghost var m0 := componentTypeByAbbr;
      var pos := 0;
      num := 0;
      out := components;
      ghost var toks: seq<string> := [];
      assert line[0..] == line;
      while true
        invariant 0 <= pos <= |line|
        invariant Tokens(line) == toks + Tokens(line[pos..])
        invariant Loaded() && componentTypeByAbbr == Entered(m0, toks)
        invariant out == components + TypesOf(toks) && num == |toks|
        decreases |line| - pos
      {
        var start := FindFirstNotOf(line, pos);
        ScanStep(line, pos);
        if start.None? {
          assert toks + Tokens(line[pos..]) == toks;
          break;
        }
        var found := FindFirstOf(line, start.value);
        pos := if found.None? then |line| else found.value;
        if pos > start.value {
          var abbr := line[start.value..pos];
          num := num + 1;
          LoadedNonEmpty();
          var t := GetComponentTypeByAbbr(abbr);
          out := out + [t];
          EnteredStep(m0, toks, abbr);
          TypesOfAppend(toks, [abbr]);
          toks := toks + [abbr];
        }
      }
    }

    /** A loaded code map is not empty, so loading it again leaves it alone. */
    lemma LoadedNonEmpty()
      requires Loaded()
      ensures Loading(componentTypeByAbbr) == componentTypeByAbbr
    {
      assert "XX" in BY_ABBR;
    }

    /**
      `loadTypesGrid` over the complete lines of a file: the kinds of all
      codes are appended to `components` line by line and every code is
      entered in the code map; `height` counts the lines holding a code and
      `width` is the code count of the last such line (both 0 when there is
      none).
    */
    method LoadTypesGrid(lines: seq<string>, components: seq<ComponentType>) returns (out: seq<ComponentType>, width: int, height: int)
      requires Valid()
      modifies this
      ensures Loaded() && componentTypeByAbbr == Entered(Loading(old(componentTypeByAbbr)), GridTokens(lines))
      ensures out == components + TypesOf(GridTokens(lines))
      ensures width == LastWidth(lines) && height == RowCount(lines)
    {
      hide BY_ABBR, ABBR_BY_TYPE, TypeOf, Tokens, GridTokens, RowCount, LastWidth, TypesOf, Loading;
      LoadStringMaps();
      ghost var m0 := componentTypeByAbbr;
      width := 0;
      height := 0;
      out := components;
      var k := 0;
      GridStart(lines);
      while k < |lines|
        invariant 0 <= k <= |lines|
        invariant Loaded() && componentTypeByAbbr == Entered(m0, GridTokens(lines[..k]))
        invariant out == components + TypesOf(GridTokens(lines[..k]))
        invariant width == LastWidth(lines[..k]) && height == RowCount(lines[..k])
      {
        var line := lines[k];
        GridStep(lines, k);
        EnteredAppend(m0, GridTokens(lines[..k]), Tokens(line));
        TypesOfAppend(GridTokens(lines[..k]), Tokens(line));
        ghost var before, added := TypesOf(GridTokens(lines[..k])), TypesOf(Tokens(line));
        Append3(components, before, added);
        if |line| > 0 {
          var num;
          out, num := LoadLine(line, out);
          if num > 0 {
            width := num;
            height := height + 1;
          }
        } else {
          assert added == [];
        }
        k := k + 1;
      }
      assert lines[..k] == lines;
    }

    /**
      `printTypesGrid`: every kind's code, a space before each code that
      does not open a row and a newline after each code that closes one.
      The height is not used.
    */
    method PrintTypesGrid(types: seq<ComponentType>, width: int, height: int) returns (text: string)
      requires Valid() && width != 0
      modifies this
      ensures Loaded() && componentTypeByAbbr == Loading(old(componentTypeByAbbr))
      ensures text == Layout(Codes(types), width)
    {
      hide BY_ABBR, ABBR_BY_TYPE, TypeOf, AbbrOf;
      LoadStringMaps();
      text := "";
      var n := 0;
      while n < |types|
        invariant 0 <= n <= |types|
        invariant Loaded() && componentTypeByAbbr == Loading(old(componentTypeByAbbr))
        invariant text == Layout(Codes(types)[..n], width)
      {
        assert Codes(types)[..n + 1][..n] == Codes(types)[..n];
        if CMod(n, width) != 0 {
          text := text + " ";
        }
        var code := GetComponentTypeAbbr(types[n]);
        text := text + code;
        if CMod(n, width) == width - 1 {
          text := text + "\n";
        }
        n := n + 1;
      }
      assert Codes(types)[..n] == Codes(types);
    }
  }
}
