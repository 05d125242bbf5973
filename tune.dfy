/**
 * The tuning-parameter registry: every `EngineParameter` registers itself
 * on construction, can be found by name, and is listed as a UCI spin
 * option.  Without tuning, each tunable is a plain constant equal to its
 * start value, which gives the two piece-value tables.
 */
module Tune {
  import opened Wrappers
  import opened Strings

  // ---------------------------------------------------------------------------
  // Non-tuning build

  /** `DEFINE_PARAM_B(name, start, lo, hi)` without tuning: the start value; the bounds play no part. */
  function DefineParamB(startValue: int, minValue: int, maxValue: int): int
  {
    startValue
  }

  lemma DefineParamBIgnoresBounds(startValue: int, lo1: int, hi1: int, lo2: int, hi2: int)
    ensures DefineParamB(startValue, lo1, hi1) == DefineParamB(startValue, lo2, hi2) == startValue
  {
  }

  const SEE_PAWN: int := DefineParamB(140, 70, 280)
  const SEE_KNIGHT: int := DefineParamB(287, 143, 560)
  const SEE_BISHOP: int := DefineParamB(348, 170, 700)
  const SEE_ROOK: int := DefineParamB(565, 270, 1100)
  const SEE_QUEEN: int := DefineParamB(1045, 520, 2090)

  /** Exchange values by piece type, pawn to king, then the empty slot. */
  const SEE_PIECE_VALUES: seq<int> := [SEE_PAWN, SEE_KNIGHT, SEE_BISHOP, SEE_ROOK, SEE_QUEEN, 0, 0]

  const PIECE_PAWN: int := DefineParamB(73, 35, 140)
  const PIECE_KNIGHT: int := DefineParamB(258, 125, 516)
  const PIECE_BISHOP: int := DefineParamB(217, 105, 440)
  const PIECE_ROOK: int := DefineParamB(476, 238, 952)
  const PIECE_QUEEN: int := DefineParamB(569, 285, 1138)

  /** Move-ordering values by piece type; the king has a fixed large value. */
  const PIECE_VALUES: seq<int> := [PIECE_PAWN, PIECE_KNIGHT, PIECE_BISHOP, PIECE_ROOK, PIECE_QUEEN, 15000, 0]

  lemma SeeValuesTable()
    ensures SEE_PIECE_VALUES == [140, 287, 348, 565, 1045, 0, 0]
    ensures forall i, j :: 0 <= i < j < 5 ==> 0 < SEE_PIECE_VALUES[i] < SEE_PIECE_VALUES[j]
  {
  }

  lemma PieceValuesTable()
    ensures PIECE_VALUES == [73, 258, 217, 476, 569, 15000, 0]
    ensures forall i :: 0 <= i < 5 ==> 0 < PIECE_VALUES[i] < PIECE_VALUES[5]
  {
  }

  // ---------------------------------------------------------------------------
  // The registry

  /** One tunable: its name, current value and bounds. */
  class EngineParameter {
    const name: string
    var value: int
    var min: int
    var max: int

    /** The explicit int conversion. */
    function ToInt(): (v: int)
      reads this
      ensures v == value
    {
      value
    }

    /**
     * Builds the parameter from the arguments as given and registers it.
     * Bounds in the wrong order only produce a warning on the console.
     */
    constructor (registry: ParamRegistry, parameterName: string, startValue: int, minValue: int, maxValue: int)
      modifies registry
      ensures name == parameterName && value == startValue && min == minValue && max == maxValue
      ensures registry.params == old(registry.params) + [this]
    {
      name := parameterName;
      value := startValue;
      min := minValue;
      max := maxValue;
      new;
      registry.Register(this);
    }
  }

  /** The lowest index whose parameter carries `name`, if any. */
  function FirstMatch(ps: seq<EngineParameter>, name: string): (r: Option<nat>)
    ensures r.Some? ==> r.value < |ps| && ps[r.value].name == name
    ensures r.Some? ==> forall j :: 0 <= j < r.value ==> ps[j].name != name
    ensures r.None? <==> forall j :: 0 <= j < |ps| ==> ps[j].name != name
  {
    if |ps| == 0 then None
    else if ps[0].name == name then Some(0)
    else match FirstMatch(ps[1..], name)
      case None => None
      case Some(i) => Some(i + 1)
  }

  /** The text of one UCI option line, without its newline. */
  function OptionLine(name: string, value: int): string
  {
    "option name " + name + " type spin default " + IntToDecimal(value) + " min -999999999 max 999999999"
  }

  /** The option lines of the parameters, in registration order. */
  function OptionTexts(ps: seq<EngineParameter>): (r: seq<string>)
    reads set i | 0 <= i < |ps| :: ps[i]
    ensures |r| == |ps|
    ensures forall k :: 0 <= k < |ps| ==> r[k] == OptionLine(ps[k].name, ps[k].value)
  {
    if |ps| == 0 then [] else [OptionLine(ps[0].name, ps[0].value)] + OptionTexts(ps[1..])
  }

  lemma OptionTextsExtend(ps: seq<EngineParameter>, i: nat)
    requires i < |ps|
    ensures OptionTexts(ps[..i + 1]) == OptionTexts(ps[..i]) + [OptionLine(ps[i].name, ps[i].value)]
  {
    var front := OptionTexts(ps[..i]);
    var a := OptionTexts(ps[..i + 1]);
    var b := front + [OptionLine(ps[i].name, ps[i].value)];
    assert |a| == |b| == i + 1;
    forall k | 0 <= k < i + 1
      ensures a[k] == b[k]
    {
      if k < i {
        assert ps[..i + 1][k] == ps[..i][k];
      } else {
        assert ps[..i + 1][k] == ps[i];
      }
    }
  }

  /** Lines written one after another, each followed by a newline. */
  function Terminated(lines: seq<string>): string
  {
    if |lines| == 0 then "" else lines[0] + "\n" + Terminated(lines[1..])
  }

  lemma {:induction false} TerminatedAppend(lines: seq<string>, line: string)
    ensures Terminated(lines + [line]) == Terminated(lines) + line + "\n"
  {
    if |lines| > 0 {
      assert (lines + [line])[1..] == lines[1..] + [line];
      TerminatedAppend(lines[1..], line);
    } else {
      assert [line][1..] == [];
    }
  }

  /** Cutting newline-terminated lines at their newlines gives the lines back. */
  lemma {:induction false} TerminatedFields(lines: seq<string>)
    requires forall k :: 0 <= k < |lines| ==> '\n' !in lines[k]
    ensures Fields(Terminated(lines), '\n') == lines
  {
    if |lines| > 0 {
      var line := lines[0];
      var rest := Terminated(lines[1..]);
      var s := Terminated(lines);
      assert s == line + "\n" + rest;
      IndexOfIs(s, '\n', |line|);
      assert s[..|line|] == line;
      assert s[|line| + 1..] == rest;
      TerminatedFields(lines[1..]);
      if |rest| == 0 {
        assert lines[1..] == [];
        assert Fields(s, '\n') == [line];
      } else {
        assert Fields(s, '\n') == [line] + Fields(rest, '\n');
      }
    }
  }

  /** An option line holds no newline when the parameter name holds none. */
  lemma OptionLineHasNoNewline(name: string, value: int)
    requires '\n' !in name
    ensures '\n' !in OptionLine(name, value)
  {
    IntDecimalHasNoNewline(value);
  }

  /** The registered parameters, in registration order. */
  class ParamRegistry {
    var params: seq<EngineParameter>

    constructor ()
      ensures params == []
    {
      params := [];
    }

    /** `registerParam`: append, keeping everything registered before. */
    method Register(p: EngineParameter)
      modifies this
      ensures params == old(params) + [p]
    {
      params := params + [p];
    }

    /** `findParam`: the first registered parameter with this name, or none. */
    method FindParam(name: string) returns (r: Option<EngineParameter>)
      ensures FirstMatch(params, name).None? ==> r.None?
      ensures FirstMatch(params, name).Some? ==> r == Some(params[FirstMatch(params, name).value])
    {
      var i := 0;
      while i < |params|
        invariant 0 <= i <= |params|
        invariant forall j :: 0 <= j < i ==> params[j].name != name
      {
        if params[i].name == name {
          return Some(params[i]);
        }
        i := i + 1;
      }
      return None;
    }

    /** `paramsToUci`: one newline-terminated option line per parameter, in registration order. */
    method ParamsToUci() returns (s: string)
      ensures s == Terminated(OptionTexts(params))
    {
      s := "";
      var i := 0;
      while i < |params|
        invariant 0 <= i <= |params|
        invariant s == Terminated(OptionTexts(params[..i]))
      {
        var line := OptionLine(params[i].name, params[i].value);
        OptionTextsExtend(params, i);
        TerminatedAppend(OptionTexts(params[..i]), line);
        s := s + line + "\n";
        i := i + 1;
      }
      assert params[..i] == params;
    }
  }

  /**
   * Cut at its newlines, the listing gives back exactly one option line per
   * parameter, in order, when no parameter name holds a newline.
   */
  lemma OptionListingLines(ps: seq<EngineParameter>)
    requires forall k :: 0 <= k < |ps| ==> '\n' !in ps[k].name
    ensures Fields(Terminated(OptionTexts(ps)), '\n') == OptionTexts(ps)
  {
    forall k | 0 <= k < |ps|
      ensures '\n' !in OptionTexts(ps)[k]
    {
      OptionLineHasNoNewline(ps[k].name, ps[k].value);
    }
    TerminatedFields(OptionTexts(ps));
  }
}
