/**
 * The string helpers of the test driver (`trim` and `splitString`) and the
 * decimal rendering of integers that the UCI option listing relies on.
 */
module Strings {
  import opened Wrappers

  /** The characters `" \t\n\r"` that `trim` strips. */
  predicate IsSpace(c: char)
  {
    c == ' ' || c == '\t' || c == '\n' || c == '\r'
  }

  predicate AllSpace(s: string)
  {
    forall i :: 0 <= i < |s| ==> IsSpace(s[i])
  }

  /** `find_first_not_of(" \t\n\r")`, with `npos` as None. */
  function FindFirstNotOf(s: string): (r: Option<nat>)
    ensures r.Some? ==> r.value < |s| && !IsSpace(s[r.value]) && AllSpace(s[..r.value])
    ensures r.None? <==> AllSpace(s)
  {
    if |s| == 0 then None
    else if !IsSpace(s[0]) then Some(0)
    else match FindFirstNotOf(s[1..])
      case None => None
      case Some(i) => Some(i + 1)
  }

  /** `find_last_not_of(" \t\n\r")`, with `npos` as None. */
  function FindLastNotOf(s: string): (r: Option<nat>)
    ensures r.Some? ==> r.value < |s| && !IsSpace(s[r.value]) && AllSpace(s[r.value + 1..])
    ensures r.None? <==> AllSpace(s)
  {
    if |s| == 0 then None
    else if !IsSpace(s[|s| - 1]) then Some(|s| - 1)
    else
      var r := FindLastNotOf(s[..|s| - 1]);
      assert r.Some? ==> s[r.value + 1..] == s[..|s| - 1][r.value + 1..] + [s[|s| - 1]];
      r
  }

  /** Neither end of `s` is whitespace. */
  predicate IsTrimmed(s: string)
  {
    |s| > 0 ==> !IsSpace(s[0]) && !IsSpace(s[|s| - 1])
  }

  /**
   * `trim`: the input without its leading and trailing whitespace (the
   * by-reference update is modelled as the new value).  The result is
   * empty exactly when the input is all whitespace.
   */
  function Trim(str: string): (r: string)
    ensures IsTrimmed(r)
    ensures r == "" <==> AllSpace(str)
  {
    match FindFirstNotOf(str)
    case None => ""
    case Some(first) =>
      var last := FindLastNotOf(str).value;
      str[first..last + 1]
  }

  /** What `trim` removes is whitespace at both ends; everything between is kept as is. */
  lemma TrimDecomposes(str: string) returns (a: string, b: string)
    ensures str == a + Trim(str) + b && AllSpace(a) && AllSpace(b)
  {
    if FindFirstNotOf(str).None? {
      a, b := str, "";
      assert Trim(str) == "";
    } else {
      var first := FindFirstNotOf(str).value;
      var last := FindLastNotOf(str).value;
      a, b := str[..first], str[last + 1..];
      assert Trim(str) == str[first..last + 1];
      SliceSplit(str, first, last + 1);
    }
  }

  lemma SliceSplit<T>(s: seq<T>, i: nat, j: nat)
    requires i <= j <= |s|
    ensures s == s[..i] + s[i..j] + s[j..]
  {
  }

  /** Trimming twice is trimming once. */
  lemma TrimIdempotent(str: string)
    ensures Trim(Trim(str)) == Trim(str)
  {
    var t := Trim(str);
    if |t| > 0 {
      assert FindFirstNotOf(t) == Some(0);
      assert FindLastNotOf(t) == Some(|t| - 1);
      assert t[0..|t|] == t;
    }
  }

  /** A trimmed string is its own trim. */
  lemma TrimOfTrimmed(s: string)
    requires IsTrimmed(s)
    ensures Trim(s) == s
  {
    if |s| > 0 {
      assert FindFirstNotOf(s) == Some(0);
      assert FindLastNotOf(s) == Some(|s| - 1);
      assert s[0..|s|] == s;
    }
  }

  // ---------------------------------------------------------------------------
  // splitString

  /** The position of the first `d` in `s`, or |s| when there is none. */
  function IndexOf(s: string, d: char): (i: nat)
    ensures i <= |s|
    ensures i < |s| ==> s[i] == d
    ensures forall j :: 0 <= j < i ==> s[j] != d
  {
    if |s| == 0 then 0
    else if s[0] == d then 0
    else IndexOf(s[1..], d) + 1
  }

  /**
   * The tokens successive `getline(ss, token, d)` calls produce: text up to
   * each delimiter, and the rest after the last one unless it is empty.
   */
  function Fields(s: string, d: char): (r: seq<string>)
    decreases |s|
  {
    if |s| == 0 then []
    else
      var i := IndexOf(s, d);
      if i == |s| then [s]
      else [s[..i]] + Fields(s[i + 1..], d)
  }

  /** Join tokens with the delimiter between them. */
  function Join(tokens: seq<string>, d: char): string
  {
    if |tokens| == 0 then ""
    else if |tokens| == 1 then tokens[0]
    else tokens[0] + [d] + Join(tokens[1..], d)
  }

  /** The fields are the input cut at every delimiter, in order (a final delimiter ends the last field). */
  lemma {:induction false} FieldsJoin(s: string, d: char)
    ensures var j := Join(Fields(s, d), d);
            s == j || s == j + [d]
    decreases |s|
  {
    if |s| > 0 {
      var i := IndexOf(s, d);
      if i < |s| {
        var rest := s[i + 1..];
        FieldsJoin(rest, d);
        assert s == s[..i] + [d] + rest;
        if |rest| == 0 {
          assert Fields(s, d) == [s[..i]];
        } else {
          var f := Fields(rest, d);
          assert |f| >= 1;
          assert Fields(s, d) == [s[..i]] + f;
          assert Join([s[..i]] + f, d) == s[..i] + [d] + Join(f, d);
        }
      }
    }
  }

  /**
   * `splitString`: each `getline` field, trimmed, kept when nonempty.  One
   * step takes the text up to the first delimiter (or the end) and goes on
   * after that delimiter.
   */
  function Split(str: string, d: char): (r: seq<string>)
    decreases |str|
  {
    if |str| == 0 then []
    else
      var i := IndexOf(str, d);
      var t := Trim(str[..i]);
      (if t == "" then [] else [t]) + (if i < |str| then Split(str[i + 1..], d) else [])
  }

  function TrimAll(tokens: seq<string>): (r: seq<string>)
  {
    if |tokens| == 0 then [] else [Trim(tokens[0])] + TrimAll(tokens[1..])
  }

  function KeepNonEmpty(tokens: seq<string>): (r: seq<string>)
  {
    if |tokens| == 0 then []
    else if tokens[0] == "" then KeepNonEmpty(tokens[1..])
    else [tokens[0]] + KeepNonEmpty(tokens[1..])
  }

  /** The split is the `getline` fields, trimmed, with the empty ones dropped. */
  lemma {:induction false} SplitIsFilteredFields(str: string, d: char)
    ensures Split(str, d) == KeepNonEmpty(TrimAll(Fields(str, d)))
    decreases |str|
  {
    if |str| > 0 {
      var i := IndexOf(str, d);
      var t := Trim(str[..i]);
      if i < |str| {
        var f := Fields(str[i + 1..], d);
        SplitIsFilteredFields(str[i + 1..], d);
        assert Fields(str, d) == [str[..i]] + f;
        assert TrimAll([str[..i]] + f) == [t] + TrimAll(f) by {
          assert ([str[..i]] + f)[1..] == f;
        }
        assert ([t] + TrimAll(f))[1..] == TrimAll(f);
      } else {
        assert str[..i] == str;
        assert Fields(str, d) == [str];
        assert TrimAll([str]) == [t];
        assert [t][1..] == [];
      }
    }
  }

  /** No field contains the delimiter. */
  lemma {:induction false} FieldsAvoidDelimiter(s: string, d: char)
    ensures forall k :: 0 <= k < |Fields(s, d)| ==> d !in Fields(s, d)[k]
    decreases |s|
  {
    if |s| > 0 {
      var i := IndexOf(s, d);
      if i < |s| {
        FieldsAvoidDelimiter(s[i + 1..], d);
      }
    }
  }

  lemma {:induction false} TrimAllAt(tokens: seq<string>)
    ensures |TrimAll(tokens)| == |tokens|
    ensures forall k :: 0 <= k < |tokens| ==> TrimAll(tokens)[k] == Trim(tokens[k])
  {
    if |tokens| > 0 {
      TrimAllAt(tokens[1..]);
    }
  }

  lemma {:induction false} KeepNonEmptyKeeps(tokens: seq<string>)
    ensures forall k :: 0 <= k < |KeepNonEmpty(tokens)| ==>
              KeepNonEmpty(tokens)[k] != "" && KeepNonEmpty(tokens)[k] in tokens
  {
    if |tokens| > 0 {
      KeepNonEmptyKeeps(tokens[1..]);
    }
  }

  /** A trimmed piece of a delimiter-free field is delimiter-free. */
  lemma TrimKeepsOut(s: string, d: char)
    requires d !in s
    ensures d !in Trim(s)
  {
    var a, b := TrimDecomposes(s);
  }

  /** Every token is nonempty, already trimmed, and free of the delimiter. */
  lemma SplitTokens(str: string, d: char)
    ensures forall k :: 0 <= k < |Split(str, d)| ==>
              Split(str, d)[k] != "" && Trim(Split(str, d)[k]) == Split(str, d)[k] && d !in Split(str, d)[k]
  {
    var f := Fields(str, d);
    var t := TrimAll(f);
    SplitIsFilteredFields(str, d);
    FieldsAvoidDelimiter(str, d);
    TrimAllAt(f);
    KeepNonEmptyKeeps(t);
    forall k | 0 <= k < |Split(str, d)|
      ensures Split(str, d)[k] != "" && Trim(Split(str, d)[k]) == Split(str, d)[k] && d !in Split(str, d)[k]
    {
      var tok := Split(str, d)[k];
      assert tok in t;
      var m :| 0 <= m < |t| && t[m] == tok;
      TrimOfTrimmed(tok);
      TrimKeepsOut(f[m], d);
    }
  }

  /** Without a delimiter there is one token, the trimmed input, unless the input is blank. */
  lemma SplitWithoutDelimiter(str: string, d: char)
    requires d !in str
    ensures AllSpace(str) ==> Split(str, d) == []
    ensures !AllSpace(str) ==> Split(str, d) == [Trim(str)]
  {
    if |str| > 0 {
      IndexOfIs(str, d, |str|);
      assert str[..|str|] == str;
    }
  }

  /** The loop's view of one step: the field from `pos` to the delimiter at `end` (or the end). */
  lemma SplitAdvance(str: string, d: char, pos: nat, end: nat)
    requires pos < |str| && pos <= end <= |str|
    requires end < |str| ==> str[end] == d
    requires forall j :: pos <= j < end ==> str[j] != d
    ensures var t := Trim(str[pos..end]);
            var next := if end < |str| then end + 1 else end;
            Split(str[pos..], d) == (if t == "" then [] else [t]) + Split(str[next..], d)
  {
    var rest := str[pos..];
    var i := end - pos;
    IndexOfIs(rest, d, i);
    SlicesOfSuffix(str, pos, end);
    var t := Trim(str[pos..end]);
    var kept: seq<string> := if t == "" then [] else [t];
    assert Split(rest, d) == kept + (if i < |rest| then Split(rest[i + 1..], d) else []);
    if end == |str| {
      assert str[end..] == "";
      assert Split(str[end..], d) == [];
    }
  }

  /** Slicing the suffix from `pos` is slicing the text itself. */
  lemma SlicesOfSuffix(str: string, pos: nat, end: nat)
    requires pos <= end <= |str|
    ensures str[pos..][..end - pos] == str[pos..end]
    ensures end < |str| ==> str[pos..][end - pos + 1..] == str[end + 1..]
  {
  }

  /** One `getline`: the characters from `pos` up to the next delimiter or the end. */
  method GetLine(str: string, delimiter: char, pos: nat) returns (token: string, end: nat)
    requires pos <= |str|
    ensures pos <= end <= |str| && token == str[pos..end]
    ensures end < |str| ==> str[end] == delimiter
    ensures forall j :: pos <= j < end ==> str[j] != delimiter
  {
    token := "";
    end := pos;
    while end < |str| && str[end] != delimiter
      invariant pos <= end <= |str|
      invariant token == str[pos..end]
      invariant forall j :: pos <= j < end ==> str[j] != delimiter
    {
      token := token + [str[end]];
      end := end + 1;
    }
  }

  /** `splitString`: a `getline` loop over the input, trimming and keeping nonempty tokens. */
  method SplitString(str: string, delimiter: char) returns (strSplit: seq<string>)
    ensures strSplit == Split(str, delimiter)
  {
    strSplit := [];
    var pos := 0;
    while pos < |str|
      invariant 0 <= pos <= |str|
      invariant strSplit + Split(str[pos..], delimiter) == Split(str, delimiter)
      decreases |str| - pos
    {
      var token, end := GetLine(str, delimiter, pos);
      var next := if end < |str| then end + 1 else end;
      SplitAdvance(str, delimiter, pos, end);
      token := Trim(token);
      ghost var kept := if token == "" then [] else [token];
      ghost var later := Split(str[next..], delimiter);
      assert Split(str[pos..], delimiter) == kept + later;
      AppendAssoc(strSplit, kept, later);
      ghost var before := strSplit;
      if token != "" {
        strSplit := strSplit + [token];
      } else {
        assert before + kept == before;
      }
      assert strSplit == before + kept;
      assert strSplit + later == Split(str, delimiter);
      pos := next;
    }
  }

  lemma AppendAssoc<T>(a: seq<T>, b: seq<T>, c: seq<T>)
    ensures a + (b + c) == (a + b) + c
  {
  }

  /** `IndexOf` is the first delimiter position. */
  lemma IndexOfIs(s: string, d: char, i: nat)
    requires i <= |s| && (i < |s| ==> s[i] == d) && forall j :: 0 <= j < i ==> s[j] != d
    ensures IndexOf(s, d) == i
  {
  }

  // ---------------------------------------------------------------------------
  // Decimal numbers

  function DigitChar(d: nat): char
    requires d < 10
  {
    "0123456789"[d]
  }

  /** The decimal digits of n, most significant first, without leading zeros. */
  function NatToDecimal(n: nat): (s: string)
    ensures |s| > 0
    decreases n
  {
    if n < 10 then [DigitChar(n)] else NatToDecimal(n / 10) + [DigitChar(n % 10)]
  }

  /** How `operator<<` writes an int. */
  function IntToDecimal(x: int): (s: string)
    ensures |s| > 0
  {
    if x < 0 then "-" + NatToDecimal(-x) else NatToDecimal(x)
  }

  function DigitValue(c: char): nat
  {
    if '0' <= c <= '9' then (c as int) - ('0' as int) else 0
  }

  function ParseNat(s: string): nat
  {
    if |s| == 0 then 0 else 10 * ParseNat(s[..|s| - 1]) + DigitValue(s[|s| - 1])
  }

  function ParseInt(s: string): int
  {
    if |s| > 0 && s[0] == '-' then -(ParseNat(s[1..]) as int) else ParseNat(s)
  }

  /** Reading the written number gives it back. */
  lemma {:induction false} NatDecimalRoundTrip(n: nat)
    ensures ParseNat(NatToDecimal(n)) == n
    ensures NatToDecimal(n)[0] != '-'
    decreases n
  {
    var s := NatToDecimal(n);
    if n >= 10 {
      NatDecimalRoundTrip(n / 10);
      assert s[..|s| - 1] == NatToDecimal(n / 10);
      assert s[0] == NatToDecimal(n / 10)[0];
    }
  }

  lemma IntDecimalRoundTrip(x: int)
    ensures ParseInt(IntToDecimal(x)) == x
  {
    if x < 0 {
      var n: nat := -x;
      assert IntToDecimal(x) == "-" + NatToDecimal(n);
      NegDecimalRoundTrip(n);
    } else {
      var n: nat := x;
      assert IntToDecimal(x) == NatToDecimal(n);
      PosDecimalRoundTrip(n);
    }
  }

  /** The negative case: a minus sign, then the digits of the magnitude. */
  lemma NegDecimalRoundTrip(n: nat)
    ensures ParseInt("-" + NatToDecimal(n)) == -(n as int)
  {
    var digits := NatToDecimal(n);
    NatDecimalRoundTrip(n);
    var s := "-" + digits;
    assert s[1..] == digits;
  }

  /** The case without a sign. */
  lemma PosDecimalRoundTrip(n: nat)
    ensures ParseInt(NatToDecimal(n)) == n
  {
    NatDecimalRoundTrip(n);
  }

  /** Written numbers consist of digits after an optional minus sign. */
  lemma {:induction false} NatDecimalDigits(n: nat)
    ensures forall k :: 0 <= k < |NatToDecimal(n)| ==> '0' <= NatToDecimal(n)[k] <= '9'
    decreases n
  {
    if n >= 10 {
      NatDecimalDigits(n / 10);
    }
  }

  lemma IntDecimalHasNoNewline(x: int)
    ensures '\n' !in IntToDecimal(x)
  {
    NatDecimalDigits(if x < 0 then -x else x);
  }
}
