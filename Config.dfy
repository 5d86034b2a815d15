/** The configuration helpers of lib/ivoxoar/util.py: range and tuple parsing, and Container. */
module Config {
  import opened Seqs
  import opened Text

  /** The ValueError causes the parsers can raise. */
  datatype Error =
    | InvalidLiteral(text: string)      // int() of something that is not a numeral
    | UnpackMismatch(pieces: nat)       // splitting on '-' gave other than two pieces
    | InvalidTupleLength(message: string)

  datatype Result<T> = Ok(value: T) | Err(error: Error)

  /** int(s), restricted to plain decimal numerals. */
  function ParseInt(s: string): (r: Result<int>)
    ensures r.Ok? <==> ParseNat(s).Some?
    ensures r.Ok? ==> r.value == ParseNat(s).value
    ensures r.Err? ==> r.error == InvalidLiteral(s)
  {
    match ParseNat(s)
    case Some(n) => Ok(n)
    case None => Err(InvalidLiteral(s))
  }

  /** range(a, b + 1): a, a + 1, ..., b; empty when b < a. */
  function Interval(a: int, b: int): (r: seq<int>)
    ensures |r| == if b < a then 0 else b - a + 1
    ensures forall k :: 0 <= k < |r| ==> r[k] == a + k
    decreases b - a
  {
    if b < a then [] else [a] + Interval(a + 1, b)
  }

  /**
   * parse_range(r): "a-b" gives a..b inclusive, a plain numeral "n" gives
   * [n] and "" gives []. Every result is a run of consecutive
   * non-negative integers.
   */
  function ParseRange(r: string): (res: Result<seq<int>>)
    ensures res.Ok? ==> forall k :: 0 <= k < |res.value| ==> res.value[k] >= 0
    ensures res.Ok? ==> forall k :: 0 < k < |res.value| ==> res.value[k] == res.value[k - 1] + 1
  {
    if '-' in r then
      var pieces := Split(r, '-');
      if |pieces| != 2 then Err(UnpackMismatch(|pieces|))
      else
        match (ParseInt(pieces[0]), ParseInt(pieces[1]))
        case (Err(e), _) => Err(e)
        case (_, Err(e)) => Err(e)
        case (Ok(a), Ok(b)) => Ok(Interval(a, b))
    else if r != "" then
      match ParseInt(r)
      case Err(e) => Err(e)
      case Ok(n) => Ok([n])
    else Ok([])
  }

  /** "a-b", the form parse_range reads as an inclusive range. */
  function FormatRange(a: nat, b: nat): string
  {
    NatToString(a) + "-" + NatToString(b)
  }

  /** A formatted range parses back to every integer from a to b. */
  lemma ParseFormatRange(a: nat, b: nat)
    ensures ParseRange(FormatRange(a, b)) == Ok(Interval(a, b))
  {
    var sa, sb := NatToString(a), NatToString(b);
    assert '-' !in sa && '-' !in sb by {
      assert forall k :: 0 <= k < |sa| ==> IsDigit(sa[k]);
      assert forall k :: 0 <= k < |sb| ==> IsDigit(sb[k]);
    }
    assert Join([sa, sb], '-') == FormatRange(a, b) by {
      assert [sa, sb][1..] == [sb];
    }
    SplitJoin([sa, sb], '-');
    assert FormatRange(a, b)[|sa|] == '-';
    ParseNatToString(a);
    ParseNatToString(b);
  }

  /** A plain numeral parses to itself alone, and the empty string to nothing. */
  lemma ParseFormatSingle(n: nat)
    ensures ParseRange(NatToString(n)) == Ok([n])
    ensures ParseRange("") == Ok([])
  {
    var s := NatToString(n);
    assert '-' !in s by {
      assert forall k :: 0 <= k < |s| ==> IsDigit(s[k]);
    }
    ParseNatToString(n);
  }

  /**
   * When parse_range succeeds: on the empty string, on a plain numeral, and
   * on exactly two numerals around a single '-'.
   */
  lemma ParseRangeOk(r: string)
    ensures ParseRange(r).Ok? <==>
      || r == ""
      || ('-' !in r && ParseNat(r).Some?)
      || (|Split(r, '-')| == 2 && ParseNat(Split(r, '-')[0]).Some? && ParseNat(Split(r, '-')[1]).Some?)
  {
    if '-' !in r {
      SplitPlain(r, '-');
    }
  }

  /**
   * What parse_range raises: with '-' in r and other than two pieces, the
   * unpack error counting the pieces; otherwise int()'s error on the first
   * piece that is not a numeral, since int(a) runs before int(b).
   */
  lemma ParseRangeError(r: string)
    ensures ParseRange(r).Err? ==>
      var pieces := if '-' in r then Split(r, '-') else [r];
      || ('-' in r && |pieces| != 2 && ParseRange(r).error == UnpackMismatch(|pieces|))
      || (|pieces| <= 2 && exists k :: (0 <= k < |pieces| && ParseNat(pieces[k]).None? && ParseRange(r).error == InvalidLiteral(pieces[k])
            && forall j :: 0 <= j < k ==> ParseNat(pieces[j]).Some?))
  {}

  /**
   * parse_range's ValueErrors: more than one '-' fails the two-way unpack,
   * and a bound or a plain value that is not a numeral fails int().
   */
  lemma ParseRangeRejects()
    ensures ParseRange("1-2-3") == Err(UnpackMismatch(3))
    ensures ParseRange("4-") == Err(InvalidLiteral(""))
    ensures ParseRange("x") == Err(InvalidLiteral("x"))
  {
    assert Split("1-2-3", '-') == ["1", "2", "3"] by {
      assert "1-2-3" == "1" + ['-'] + "2-3";
      SplitPrefix("1", "2-3", '-');
      assert "2-3" == "2" + ['-'] + "3";
      SplitPrefix("2", "3", '-');
      SplitPlain("3", '-');
    }
    assert Split("4-", '-') == ["4", ""] by {
      assert "4-" == "4" + ['-'] + "";
      SplitPrefix("4", "", '-');
    }
    SplitPlain("x", '-');
  }

  /** With both bounds bad, int(a) runs first and its error is the one raised. */
  lemma ParseRangeFirstBound()
    ensures ParseRange("x-y") == Err(InvalidLiteral("x"))
  {
    assert "x-y" == "x" + ['-'] + "y";
    SplitPrefix("x", "y", '-');
    SplitPlain("y", '-');
    assert ParseNat("x").None?;
  }

  /** What parse_range yields for each field, with nothing for a field it rejects. */
  function RangeValues(fields: seq<string>): (vs: seq<seq<int>>)
    ensures |vs| == |fields|
  {
    seq(|fields|, k requires 0 <= k < |fields| =>
      match ParseRange(fields[k]) case Ok(v) => v case Err(_) => [])
  }

  /**
   * The value parse_multi_range computes from the fields of its argument:
   * the values of every field in order, or the error of the first field
   * parse_range rejects.
   */
  function MultiRange(fields: seq<string>): (r: Result<seq<int>>)
    ensures r.Ok? ==> forall k :: 0 <= k < |r.value| ==> r.value[k] >= 0
  {
    if fields == [] then Ok([])
    else
      match MultiRange(fields[..|fields| - 1])
      case Err(e) => Err(e)
      case Ok(v) =>
        match ParseRange(fields[|fields| - 1])
        case Err(e) => Err(e)
        case Ok(w) => Ok(v + w)
  }

  /** e is the error of the first field parse_range rejects. */
  ghost predicate FirstRangeError(fields: seq<string>, e: Error)
  {
    exists k :: 0 <= k < |fields| && ParseRange(fields[k]) == Err(e)
      && forall j :: 0 <= j < k ==> ParseRange(fields[j]).Ok?
  }

  /** parse_multi_range succeeds exactly when every field parses. */
  lemma {:induction false} MultiRangeOk(fields: seq<string>)
    ensures MultiRange(fields).Ok? <==> forall k :: 0 <= k < |fields| ==> ParseRange(fields[k]).Ok?
  {
    if fields != [] {
      var init := fields[..|fields| - 1];
      MultiRangeOk(init);
      assert forall k :: 0 <= k < |init| ==> init[k] == fields[k];
    }
  }

  /** A successful parse_multi_range yields every field's values, concatenated in order. */
  lemma {:induction false} MultiRangeValues(fields: seq<string>)
    ensures MultiRange(fields).Ok? ==> MultiRange(fields).value == Flatten(RangeValues(fields))
  {
    if fields != [] && MultiRange(fields).Ok? {
      var init := fields[..|fields| - 1];
      MultiRangeValues(init);
      assert RangeValues(fields)[..|init|] == RangeValues(init);
    }
  }

  /** A failing parse_multi_range reports the error of the first field parse_range rejects. */
  lemma {:induction false} MultiRangeFirstError(fields: seq<string>)
    ensures MultiRange(fields).Err? ==> FirstRangeError(fields, MultiRange(fields).error)
  {
    if fields != [] && MultiRange(fields).Err? {
      var n := |fields|;
      var init := fields[..n - 1];
      assert forall k :: 0 <= k < n - 1 ==> init[k] == fields[k];
      if MultiRange(init).Err? {
        MultiRangeFirstError(init);
        var k :| 0 <= k < |init| && ParseRange(init[k]) == Err(MultiRange(init).error)
          && forall j :: 0 <= j < k ==> ParseRange(init[j]).Ok?;
        assert ParseRange(fields[k]) == Err(MultiRange(fields).error);
      } else {
        MultiRangeOk(init);
        assert ParseRange(fields[n - 1]) == Err(MultiRange(fields).error);
      }
    }
  }

  /** Once a prefix of the fields fails, the later fields change nothing. */
  lemma {:induction false} MultiRangeErrorStays(fields: seq<string>, n: nat)
    requires n <= |fields| && MultiRange(fields[..n]).Err?
    ensures MultiRange(fields) == MultiRange(fields[..n])
    decreases |fields| - n
  {
    if n == |fields| {
      assert fields[..n] == fields;
    } else {
      var init := fields[..|fields| - 1];
      assert init[..n] == fields[..n];
      MultiRangeErrorStays(init, n);
    }
  }

  /**
   * parse_multi_range(s): the fields between commas, each through
   * parse_range, concatenated in order.
   */
  method ParseMultiRange(s: string) returns (r: Result<seq<int>>)
    ensures r == MultiRange(Split(s, ','))
  {
    var out := [];
    var ranges := Split(s, ',');
    for i := 0 to |ranges|
      invariant MultiRange(ranges[..i]) == Ok(out)
    {
      var parsed := ParseRange(ranges[i]);
      assert ranges[..i + 1][..i] == ranges[..i];
      if parsed.Err? {
        MultiRangeErrorStays(ranges, i + 1);
        return Err(parsed.error);
      }
      out := out + parsed.value;
    }
    assert ranges[..|ranges|] == ranges;
    return Ok(out);
  }

  /** Every field converted in order; the first failing conversion's error ends it. */
  function ConvertAll<T>(fields: seq<string>, convert: string -> Result<T>): (r: Result<seq<T>>)
    ensures r.Ok? <==> forall k :: 0 <= k < |fields| ==> convert(fields[k]).Ok?
    ensures r.Ok? ==> |r.value| == |fields| && forall k :: 0 <= k < |fields| ==> r.value[k] == convert(fields[k]).value
    ensures r.Err? ==> exists k :: (0 <= k < |fields| && convert(fields[k]) == Err(r.error)
      && forall j :: 0 <= j < k ==> convert(fields[j]).Ok?)
  {
    if fields == [] then Ok([])
    else
      match convert(fields[0])
      case Err(e) => Err(e)
      case Ok(v) =>
        match ConvertAll(fields[1..], convert)
        case Err(e) =>
          assert forall j :: 1 <= j < |fields| ==> fields[j] == fields[1..][j - 1];
          Err(e)
        case Ok(vs) => Ok([v] + vs)
  }

  /**
   * The message parse_tuple means to raise on a length mismatch, naming
   * the expected length and the length it got; it ends with the latter.
   */
  function TupleLengthMessage(expected: nat, got: nat): (m: string)
    ensures |m| >= |NatToString(got)| && m[|m| - |NatToString(got)|..] == NatToString(got)
  {
    var p := "invalid tuple length: expected " + NatToString(expected) + " got ";
    assert (p + NatToString(got))[|p|..] == NatToString(got);
    p + NatToString(got)
  }

  /**
   * The message parse_tuple raises: its format string names the first
   * argument in both places, so the expected length stands where the
   * actual one belongs.
   */
  function TupleLengthMessageAsWritten(expected: nat, got: nat): (m: string)
    ensures m == TupleLengthMessage(expected, expected)
  {
    "invalid tuple length: expected " + NatToString(expected) + " got " + NatToString(expected)
  }

  /** As written, the message cannot tell a 3-field tuple from a 5-field one. */
  lemma TupleLengthMessageAsWrittenHidesGot()
    ensures TupleLengthMessageAsWritten(2, 3) == TupleLengthMessageAsWritten(2, 5)
    ensures TupleLengthMessageAsWritten(2, 3) == "invalid tuple length: expected 2 got 2"
  {}

  lemma ConcatAt(a: string, t: string, x: string)
    ensures |t| > 0 ==> (a + t + x)[|a|] == t[0]
    ensures forall k :: 0 <= k < |a| ==> (a + t + x)[k] == a[k]
  {}

  /** A numeral followed by a separator text that holds no digit splits apart uniquely. */
  lemma {:induction false} DigitsThenText(a: string, b: string, t: string, x: string, y: string)
    requires AllDigits(a) && AllDigits(b)
    requires t != [] && !IsDigit(t[0])
    requires a + t + x == b + t + y
    ensures a == b && x == y
  {
    ConcatAt(a, t, x);
    ConcatAt(b, t, y);
    if |a| < |b| {
      assert false;
    } else if |b| < |a| {
      assert false;
    }
    assert a == (a + t + x)[..|a|];
    assert b == (b + t + y)[..|b|];
    assert x == (a + t + x)[|a| + |t|..];
    assert y == (b + t + y)[|b| + |t|..];
  }

  /** The intended message determines both lengths. */
  lemma TupleLengthMessageInjective(e1: nat, g1: nat, e2: nat, g2: nat)
    requires TupleLengthMessage(e1, g1) == TupleLengthMessage(e2, g2)
    ensures e1 == e2 && g1 == g2
  {
    var p := "invalid tuple length: expected ";
    var a, b := NatToString(e1), NatToString(e2);
    var x, y := NatToString(g1), NatToString(g2);
    assert p + a + " got " + x == p + b + " got " + y;
    assert a + " got " + x == b + " got " + y by {
      assert (p + a + " got " + x)[|p|..] == a + " got " + x;
      assert (p + b + " got " + y)[|p|..] == b + " got " + y;
    }
    DigitsThenText(a, b, " got ", x, y);
    NatToStringInjective(e1, e2);
    NatToStringInjective(g1, g2);
  }

  /**
   * The fields of s converted in order, with a length given a different
   * number of fields is an error whose message message(length, count) builds.
   */
  function TupleWith<T>(s: string, length: Option<nat>, convert: string -> Result<T>, message: (nat, nat) -> string): (r: Result<seq<T>>)
    ensures var fields := Split(s, ',');
      r.Ok? <==> ((forall k :: 0 <= k < |fields| ==> convert(fields[k]).Ok?)
        && (length.None? || length.value == |fields|))
    ensures var fields := Split(s, ',');
      r.Ok? ==> |r.value| == |fields| && forall k :: 0 <= k < |fields| ==> r.value[k] == convert(fields[k]).value
    ensures var fields := Split(s, ',');
      (forall k :: 0 <= k < |fields| ==> convert(fields[k]).Ok?) && length.Some? && length.value != |fields| ==>
        r == Err(InvalidTupleLength(message(length.value, |fields|)))
    ensures var fields := Split(s, ',');
      r.Err? && !(forall k :: 0 <= k < |fields| ==> convert(fields[k]).Ok?) ==>
        exists k :: (0 <= k < |fields| && convert(fields[k]) == Err(r.error)
          && forall j :: 0 <= j < k ==> convert(fields[j]).Ok?)
  {
    var fields := Split(s, ',');
    var converted := ConvertAll(fields, convert);
    match converted
    case Err(e) =>
      var k :| 0 <= k < |fields| && convert(fields[k]) == Err(e);
      assert !convert(fields[k]).Ok?;
      assert !(forall j :: 0 <= j < |fields| ==> convert(fields[j]).Ok?);
      assert fields == Split(s, ',');
      Err(e)
    case Ok(t) =>
      if length.Some? && |t| != length.value then
        Err(InvalidTupleLength(message(length.value, |t|)))
      else Ok(t)
  }

  /**
   * parse_tuple(s, length, type) as the program runs it: the comma-separated
   * fields of s, each converted by convert (the source's type argument);
   * the first failing conversion's error ends it; with a length given, a
   * different number of fields raises the length error with the expected
   * length in both places.
   */
  function ParseTuple<T>(s: string, length: Option<nat>, convert: string -> Result<T>): (r: Result<seq<T>>)
    ensures var fields := Split(s, ',');
      r.Ok? <==> ((forall k :: 0 <= k < |fields| ==> convert(fields[k]).Ok?)
        && (length.None? || length.value == |fields|))
    ensures var fields := Split(s, ',');
      r.Ok? ==> |r.value| == |fields| && forall k :: 0 <= k < |fields| ==> r.value[k] == convert(fields[k]).value
    ensures var fields := Split(s, ',');
      (forall k :: 0 <= k < |fields| ==> convert(fields[k]).Ok?) && length.Some? && length.value != |fields| ==>
        r == Err(InvalidTupleLength(TupleLengthMessageAsWritten(length.value, |fields|)))
    ensures var fields := Split(s, ',');
      r.Err? && !(forall k :: 0 <= k < |fields| ==> convert(fields[k]).Ok?) ==>
        exists k :: (0 <= k < |fields| && convert(fields[k]) == Err(r.error)
          && forall j :: 0 <= j < k ==> convert(fields[j]).Ok?)
  {
    var message := TupleLengthMessageAsWritten;
    assert length.Some? ==> message(length.value, |Split(s, ',')|) == TupleLengthMessageAsWritten(length.value, |Split(s, ',')|);
    TupleWith(s, length, convert, message)
  }

  /** parse_tuple as evidently intended: the length error names the length it got. */
  function ParseTupleIntended<T>(s: string, length: Option<nat>, convert: string -> Result<T>): (r: Result<seq<T>>)
    ensures var fields := Split(s, ',');
      r.Ok? <==> ((forall k :: 0 <= k < |fields| ==> convert(fields[k]).Ok?)
        && (length.None? || length.value == |fields|))
    ensures var fields := Split(s, ',');
      r.Ok? ==> |r.value| == |fields| && forall k :: 0 <= k < |fields| ==> r.value[k] == convert(fields[k]).value
    ensures var fields := Split(s, ',');
      (forall k :: 0 <= k < |fields| ==> convert(fields[k]).Ok?) && length.Some? && length.value != |fields| ==>
        r == Err(InvalidTupleLength(TupleLengthMessage(length.value, |fields|)))
    ensures var fields := Split(s, ',');
      r.Err? && !(forall k :: 0 <= k < |fields| ==> convert(fields[k]).Ok?) ==>
        exists k :: (0 <= k < |fields| && convert(fields[k]) == Err(r.error)
          && forall j :: 0 <= j < k ==> convert(fields[j]).Ok?)
  {
    var message := TupleLengthMessage;
    assert length.Some? ==> message(length.value, |Split(s, ',')|) == TupleLengthMessage(length.value, |Split(s, ',')|);
    TupleWith(s, length, convert, message)
  }

  /** parse_tuple's default type, str: every field converts to itself. */
  function Str(s: string): Result<string>
  {
    Ok(s)
  }

  /** The fields of "1,2,3". */
  lemma SplitThreeFields()
    ensures Split("1,2,3", ',') == ["1", "2", "3"]
  {
    assert "1,2,3" == "1" + [','] + "2,3";
    SplitPrefix("1", "2,3", ',');
    assert "2,3" == "2" + [','] + "3";
    SplitPrefix("2", "3", ',');
    SplitPlain("3", ',');
  }

  /** String fields of the wrong count: both versions raise their length error. */
  lemma StrTupleLengthError(s: string, n: nat)
    requires |Split(s, ',')| != n
    ensures ParseTuple(s, Some(n), Str) == Err(InvalidTupleLength(TupleLengthMessageAsWritten(n, |Split(s, ',')|)))
    ensures ParseTupleIntended(s, Some(n), Str) == Err(InvalidTupleLength(TupleLengthMessage(n, |Split(s, ',')|)))
  {
    var fields := Split(s, ',');
    assert forall k :: 0 <= k < |fields| ==> Str(fields[k]).Ok?;
  }

  /** The two messages for two expected fields and three found. */
  lemma TupleLengthMessagesTwoThree()
    ensures TupleLengthMessageAsWritten(2, 3) == "invalid tuple length: expected 2 got 2"
    ensures TupleLengthMessage(2, 3) == "invalid tuple length: expected 2 got 3"
  {
    assert NatToString(2) == "2" && NatToString(3) == "3";
  }

  /**
   * Three string fields where two are expected: the program reports
   * "expected 2 got 2", the intended message "expected 2 got 3".
   */
  lemma ParseTupleLengthExample()
    ensures ParseTuple("1,2,3", Some(2), Str) == Err(InvalidTupleLength("invalid tuple length: expected 2 got 2"))
    ensures ParseTupleIntended("1,2,3", Some(2), Str) == Err(InvalidTupleLength("invalid tuple length: expected 2 got 3"))
  {
    SplitThreeFields();
    StrTupleLengthError("1,2,3", 2);
    TupleLengthMessagesTwoThree();
  }

  /** A mutable holder for one value. */
  class Container<T> {
    var value: T

    constructor (value: T)
      ensures this.value == value
    {
      this.value := value;
    }

    method Put(value: T)
      modifies this
      ensures this.value == value
    {
      this.value := value;
    }

    method Get() returns (v: T)
      ensures v == value
    {
      v := value;
    }
  }
}
