/**
 * The library's string and object helpers: the date-format translation,
 * the merge of two plain objects, and the normalisation a number or
 * currency string goes through before it is read as a float.
 */
module Utils {
  import opened Php
  import opened Collections

  // ---------------------------------------------------------------------
  // convertDateTimeFormat

  /**
   * The format tokens rewritten in order: day, month, year, hour, minute.
   * Each token is replaced by a shorter one, so the translated format is
   * never longer than the given one.
   */
  function ConvertDateTimeFormat(dateFormat: string): (r: string)
    ensures |r| <= |dateFormat|
  {
    var day := Replace(dateFormat, "dd", "d");
    ReplaceShortens(dateFormat, "dd", "d");
    var month := Replace(day, "MM", "m");
    ReplaceShortens(day, "MM", "m");
    var year := Replace(month, "yyyy", "Y");
    ReplaceShortens(month, "yyyy", "Y");
    var hour := Replace(year, "HH", "H");
    ReplaceShortens(year, "HH", "H");
    ReplaceShortens(hour, "mm", "i");
    Replace(hour, "mm", "i")
  }

  /** A format holding none of the tokens is returned as it is. */
  lemma NoTokensUnchanged(dateFormat: string)
    requires && !Contains(dateFormat, "dd") && !Contains(dateFormat, "MM") && !Contains(dateFormat, "yyyy")
             && !Contains(dateFormat, "HH") && !Contains(dateFormat, "mm")
    ensures ConvertDateTimeFormat(dateFormat) == dateFormat
  {
    ReplaceAbsent(dateFormat, "dd", "d");
    ReplaceAbsent(dateFormat, "MM", "m");
    ReplaceAbsent(dateFormat, "yyyy", "Y");
    ReplaceAbsent(dateFormat, "HH", "H");
    ReplaceAbsent(dateFormat, "mm", "i");
  }

  /** A replacement by something no longer than what it replaces never lengthens the string. */
  lemma {:induction false} ReplaceShortens(s: string, from: string, to: string)
    requires from != [] && |to| <= |from|
    ensures |Replace(s, from, to)| <= |s|
    decreases |s|
  {
    if |s| >= |from| {
      if s[..|from|] == from {
        ReplaceShortens(s[|from|..], from, to);
      } else {
        ReplaceShortens(s[1..], from, to);
      }
    }
  }

  /** A prefix without the token's first character passes through a replacement unchanged. */
  lemma {:induction false} ReplaceThrough(p: string, rest: string, from: string, to: string)
    requires from != [] && from[0] !in p
    ensures Replace(p + rest, from, to) == p + Replace(rest, from, to)
    decreases |p|
  {
    if p != [] {
      var s := p + rest;
      assert s[0] == p[0] != from[0];
      if |s| >= |from| {
        assert s[..|from|] != from by {
          assert s[..|from|][0] == p[0];
        }
      }
      assert s[1..] == p[1..] + rest;
      ReplaceThrough(p[1..], rest, from, to);
    } else {
      assert p + rest == rest;
    }
  }

  /** A string that starts with the token starts with its replacement. */
  lemma ReplaceLeading(from: string, rest: string, to: string)
    requires from != []
    ensures Replace(from + rest, from, to) == to + Replace(rest, from, to)
  {
    var s := from + rest;
    assert s[..|from|] == from;
    assert s[|from|..] == rest;
  }

  /** A two-character token's first character, not followed by its second, is kept. */
  lemma ReplaceSkip(c: char, rest: string, from: string, to: string)
    requires |from| == 2 && from[0] == c && (rest == [] || rest[0] != from[1])
    ensures Replace([c] + rest, from, to) == [c] + Replace(rest, from, to)
  {
    var s := [c] + rest;
    if |s| >= 2 {
      assert s[..2][1] == rest[0];
    }
    assert s[1..] == rest;
  }

  /** The characters that start a token. */
  predicate TokenFree(s: string)
  {
    forall x :: x in s ==> x != 'd' && x != 'M' && x != 'y' && x != 'H' && x != 'm'
  }

  /** A token followed by a string without its first character. */
  lemma ReplaceTokenThenFree(from: string, after: string, to: string)
    requires from != [] && from[0] !in after
    ensures Replace(from + after, from, to) == to + after
  {
    ReplaceLeading(from, after, to);
    ReplaceThrough(after, [], from, to);
    assert after + [] == after;
  }

  /**
   * A format of five tokens and four separators, from the right: the
   * shape each rewrite is traced through.
   */
  function Pieces(t1: string, a: string, t2: string, b: string, t3: string, c: string, t4: string, d: string,
                  t5: string): string
  {
    t1 + (a + (t2 + (b + (t3 + (c + (t4 + (d + t5)))))))
  }

  lemma DayStage(a: string, b: string, c: string, d: string)
    requires TokenFree(a) && TokenFree(b) && TokenFree(c) && TokenFree(d)
    ensures Replace(Pieces("dd", a, "MM", b, "yyyy", c, "HH", d, "mm"), "dd", "d")
            == Pieces("d", a, "MM", b, "yyyy", c, "HH", d, "mm")
  {
    ReplaceTokenThenFree("dd", a + ("MM" + (b + ("yyyy" + (c + ("HH" + (d + "mm")))))), "d");
  }

  lemma MonthStage(a: string, b: string, c: string, d: string)
    requires TokenFree(a) && TokenFree(b) && TokenFree(c) && TokenFree(d)
    ensures Replace(Pieces("d", a, "MM", b, "yyyy", c, "HH", d, "mm"), "MM", "m")
            == Pieces("d", a, "m", b, "yyyy", c, "HH", d, "mm")
  {
    ReplaceThrough("d", a + ("MM" + (b + ("yyyy" + (c + ("HH" + (d + "mm")))))), "MM", "m");
    ReplaceThrough(a, "MM" + (b + ("yyyy" + (c + ("HH" + (d + "mm"))))), "MM", "m");
    ReplaceTokenThenFree("MM", b + ("yyyy" + (c + ("HH" + (d + "mm")))), "m");
  }

  lemma YearStage(a: string, b: string, c: string, d: string)
    requires TokenFree(a) && TokenFree(b) && TokenFree(c) && TokenFree(d)
    ensures Replace(Pieces("d", a, "m", b, "yyyy", c, "HH", d, "mm"), "yyyy", "Y")
            == Pieces("d", a, "m", b, "Y", c, "HH", d, "mm")
  {
    ReplaceThrough("d", a + ("m" + (b + ("yyyy" + (c + ("HH" + (d + "mm")))))), "yyyy", "Y");
    ReplaceThrough(a, "m" + (b + ("yyyy" + (c + ("HH" + (d + "mm"))))), "yyyy", "Y");
    ReplaceThrough("m", b + ("yyyy" + (c + ("HH" + (d + "mm")))), "yyyy", "Y");
    ReplaceThrough(b, "yyyy" + (c + ("HH" + (d + "mm"))), "yyyy", "Y");
    ReplaceTokenThenFree("yyyy", c + ("HH" + (d + "mm")), "Y");
  }

  lemma HourStage(a: string, b: string, c: string, d: string)
    requires TokenFree(a) && TokenFree(b) && TokenFree(c) && TokenFree(d)
    ensures Replace(Pieces("d", a, "m", b, "Y", c, "HH", d, "mm"), "HH", "H")
            == Pieces("d", a, "m", b, "Y", c, "H", d, "mm")
  {
    ReplaceThrough("d", a + ("m" + (b + ("Y" + (c + ("HH" + (d + "mm")))))), "HH", "H");
    ReplaceThrough(a, "m" + (b + ("Y" + (c + ("HH" + (d + "mm"))))), "HH", "H");
    ReplaceThrough("m", b + ("Y" + (c + ("HH" + (d + "mm")))), "HH", "H");
    ReplaceThrough(b, "Y" + (c + ("HH" + (d + "mm"))), "HH", "H");
    ReplaceThrough("Y", c + ("HH" + (d + "mm")), "HH", "H");
    ReplaceThrough(c, "HH" + (d + "mm"), "HH", "H");
    ReplaceTokenThenFree("HH", d + "mm", "H");
  }

  /** The month's `m` is no minute token: only the trailing `mm` becomes `i`. */
  lemma MinuteStage(a: string, b: string, c: string, d: string)
    requires TokenFree(a) && TokenFree(b) && TokenFree(c) && TokenFree(d)
    ensures Replace(Pieces("d", a, "m", b, "Y", c, "H", d, "mm"), "mm", "i")
            == Pieces("d", a, "m", b, "Y", c, "H", d, "i")
  {
    var tail := b + ("Y" + (c + ("H" + (d + "mm"))));
    ReplaceThrough("d", a + ("m" + tail), "mm", "i");
    ReplaceThrough(a, "m" + tail, "mm", "i");
    assert tail[0] != 'm' by {
      if b == [] {
        assert tail[0] == 'Y';
      } else {
        assert tail[0] == b[0] && b[0] in b;
      }
    }
    ReplaceSkip('m', tail, "mm", "i");
    assert "m" + tail == ['m'] + tail;
    ReplaceThrough(b, "Y" + (c + ("H" + (d + "mm"))), "mm", "i");
    ReplaceThrough("Y", c + ("H" + (d + "mm")), "mm", "i");
    ReplaceThrough(c, "H" + (d + "mm"), "mm", "i");
    ReplaceThrough("H", d + "mm", "mm", "i");
    ReplaceThrough(d, "mm", "mm", "i");
    ReplaceTokenThenFree("mm", "", "i");
    assert "mm" + "" == "mm";
    assert "i" + "" == "i";
  }

  /**
   * A day-month-year hour-minute format with token-free separators: every
   * token is rewritten and the separators are kept.
   */
  lemma SeparatedFormat(a: string, b: string, c: string, d: string)
    requires TokenFree(a) && TokenFree(b) && TokenFree(c) && TokenFree(d)
    ensures ConvertDateTimeFormat("dd" + a + "MM" + b + "yyyy" + c + "HH" + d + "mm")
            == "d" + a + "m" + b + "Y" + c + "H" + d + "i"
  {
    DayStage(a, b, c, d);
    MonthStage(a, b, c, d);
    YearStage(a, b, c, d);
    HourStage(a, b, c, d);
    MinuteStage(a, b, c, d);
    Regroup("dd", a, "MM", b, "yyyy", c, "HH", d, "mm");
    Regroup("d", a, "m", b, "Y", c, "H", d, "i");
  }

  /** The left-grouped concatenation of nine pieces, grouped from the right. */
  lemma Regroup(s1: string, s2: string, s3: string, s4: string, s5: string, s6: string, s7: string, s8: string, s9: string)
    ensures s1 + s2 + s3 + s4 + s5 + s6 + s7 + s8 + s9 == Pieces(s1, s2, s3, s4, s5, s6, s7, s8, s9)
  {
  }

  /** The library's own date-time format, `dd-MM-yyyy HH:mm`, becomes `d-m-Y H:i`. */
  lemma DayMonthYearHourMinute()
    ensures ConvertDateTimeFormat("dd-MM-yyyy HH:mm") == "d-m-Y H:i"
  {
    SeparatedFormat("-", "-", " ", ":");
    assert "dd" + "-" + "MM" + "-" + "yyyy" + " " + "HH" + ":" + "mm" == "dd-MM-yyyy HH:mm";
    assert "d" + "-" + "m" + "-" + "Y" + " " + "H" + ":" + "i" == "d-m-Y H:i";
  }

  /**
   * Outside the separated shape the replacements interact: the `m` a month
   * token leaves behind joins a following `m` into a minute token.
   */
  lemma MonthLeftFeedsMinute()
    ensures ConvertDateTimeFormat("MMmm") == "im"
  {
    assert Replace("m", "dd", "d") == "m";
    assert Replace("mm", "dd", "d") == "mm";
    assert Replace("Mmm", "dd", "d") == "Mmm";
    assert Replace("MMmm", "dd", "d") == "MMmm";
    assert Replace("mm", "MM", "m") == "mm";
    assert Replace("MMmm", "MM", "m") == "mmm";
    assert Replace("mmm", "yyyy", "Y") == "mmm";
    assert Replace("m", "HH", "H") == "m";
    assert Replace("mm", "HH", "H") == "mm";
    assert Replace("mmm", "HH", "H") == "mmm";
    assert Replace("m", "mm", "i") == "m";
    assert Replace("mmm", "mm", "i") == "im";
  }

  // ---------------------------------------------------------------------
  // objectMerge

  /** `$m->$key = $value` for each property of `base`, in its order. */
  function MergeKeys(m: OrderedMap<string, Value>, keys: seq<string>, vals: map<string, Value>): (r: OrderedMap<string, Value>)
    requires Valid(m)
    requires forall i :: 0 <= i < |keys| ==> keys[i] in vals
    ensures Valid(r)
    decreases |keys|
  {
    if keys == [] then m
    else
      var k := keys[|keys| - 1];
      Put(MergeKeys(m, keys[..|keys| - 1], vals), k, vals[k])
  }

  /** The properties of `merge` after `base` was merged into it. */
  function Merge(merge: OrderedMap<string, Value>, base: OrderedMap<string, Value>): (r: OrderedMap<string, Value>)
    requires Valid(merge) && Valid(base)
    ensures Valid(r)
  {
    MergeKeys(merge, base.keys, base.vals)
  }

  lemma {:induction false} MergeKeysValues(m: OrderedMap<string, Value>, keys: seq<string>, vals: map<string, Value>, k: string)
    requires Valid(m)
    requires forall i :: 0 <= i < |keys| ==> keys[i] in vals
    ensures k in keys ==> k in MergeKeys(m, keys, vals).vals && MergeKeys(m, keys, vals).vals[k] == vals[k]
    ensures k !in keys ==> (k in MergeKeys(m, keys, vals).vals <==> k in m.vals)
    ensures k !in keys && k in m.vals ==> MergeKeys(m, keys, vals).vals[k] == m.vals[k]
    decreases |keys|
  {
    if keys != [] {
      var init := keys[..|keys| - 1];
      var last := keys[|keys| - 1];
      MergeKeysValues(m, init, vals, k);
      var before := MergeKeys(m, init, vals);
      assert MergeKeys(m, keys, vals).vals == before.vals[last := vals[last]];
      assert k in keys <==> k in init || k == last by {
        assert keys == init + [last];
      }
    }
  }

  /**
   * After the merge every property of `base` has base's value, a property
   * only `merge` has keeps its value, and the properties are exactly those
   * of either object.
   */
  lemma MergeContents(merge: OrderedMap<string, Value>, base: OrderedMap<string, Value>, k: string)
    requires Valid(merge) && Valid(base)
    ensures k in Merge(merge, base).vals <==> k in merge.vals || k in base.vals
    ensures k in base.vals ==> Merge(merge, base).vals[k] == base.vals[k]
    ensures k !in base.vals && k in merge.vals ==> Merge(merge, base).vals[k] == merge.vals[k]
  {
    MergeKeysValues(merge, base.keys, base.vals, k);
  }

  /** The test picking the keys a map does not have yet. */
  function NotIn(m: OrderedMap<string, Value>): string -> bool
  {
    k => k !in m.vals
  }

  /** The last key of `base` is appended exactly when `m` does not have it and no earlier key was it. */
  lemma MergeKeysLastKey(m: OrderedMap<string, Value>, keys: seq<string>, vals: map<string, Value>)
    requires Valid(m)
    requires forall i :: 0 <= i < |keys| ==> keys[i] in vals
    requires keys != [] && keys[|keys| - 1] !in keys[..|keys| - 1]
    ensures var k := keys[|keys| - 1];
            MergeKeys(m, keys, vals).keys ==
            MergeKeys(m, keys[..|keys| - 1], vals).keys + (if NotIn(m)(k) then [k] else [])
  {
    MergeKeysValues(m, keys[..|keys| - 1], vals, keys[|keys| - 1]);
  }

  lemma AppendAssociates<T>(a: seq<T>, b: seq<T>, c: seq<T>)
    ensures a + b + c == a + (b + c)
  {
  }

  /** Properties `merge` already had keep their place; new ones follow in base's order. */
  lemma {:induction false} MergeKeysOrder(m: OrderedMap<string, Value>, keys: seq<string>, vals: map<string, Value>)
    requires Valid(m)
    requires forall i :: 0 <= i < |keys| ==> keys[i] in vals
    requires forall i, j :: 0 <= i < j < |keys| ==> keys[i] != keys[j]
    ensures MergeKeys(m, keys, vals).keys == m.keys + Select(keys, NotIn(m))
    decreases |keys|
  {
    if keys != [] {
      var init := keys[..|keys| - 1];
      var k := keys[|keys| - 1];
      assert k !in init by {
        assert forall i :: 0 <= i < |init| ==> init[i] == keys[i];
      }
      MergeKeysOrder(m, init, vals);
      MergeKeysLastKey(m, keys, vals);
      AppendAssociates(m.keys, Select(init, NotIn(m)), if NotIn(m)(k) then [k] else []);
    }
  }

  lemma MergeOrder(merge: OrderedMap<string, Value>, base: OrderedMap<string, Value>)
    requires Valid(merge) && Valid(base)
    ensures Merge(merge, base).keys == merge.keys + Select(base.keys, NotIn(merge))
  {
    MergeKeysOrder(merge, base.keys, base.vals);
  }

  /** A `stdClass` instance: its properties in declaration order. */
  class StdObject {
    var props: OrderedMap<string, Value>

    ghost predicate Valid()
      reads this
    {
      Collections.Valid(props)
    }

    constructor(props: OrderedMap<string, Value>)
      requires Collections.Valid(props)
      ensures this.props == props && Valid()
    {
      this.props := props;
    }
  }

  /**
   * `objectMerge`: writes every property of `base` into `mergeObject` and
   * returns `mergeObject` itself.
   */
  method ObjectMerge(base: StdObject, mergeObject: StdObject) returns (newObject: StdObject)
    requires base.Valid() && mergeObject.Valid()
    modifies mergeObject
    ensures newObject == mergeObject && newObject.Valid()
    ensures mergeObject.props == Merge(old(mergeObject.props), old(base.props))
  {
    newObject := mergeObject;
    ghost var start := mergeObject.props;
    var keys := base.props.keys;
    var vals := base.props.vals;
    ghost var target := MergeKeys(start, keys, vals);
    assert target == Merge(old(mergeObject.props), old(base.props));
    var i := 0;
    while i < |keys|
      invariant 0 <= i <= |keys|
      invariant newObject == mergeObject
      invariant newObject.props == MergeKeys(start, keys[..i], vals)
    {
      assert keys[..i + 1][..i] == keys[..i];
      var key := keys[i];
      newObject.props := Put(newObject.props, key, vals[key]);
      i := i + 1;
    }
    assert keys[..|keys|] == keys;
    assert newObject.props == target;
  }

  // ---------------------------------------------------------------------
  // convertNumberString

  /**
   * Whatever precedes the last space at a position after the first is cut
   * off, and the rest trimmed: a result that was cut is trimmed, and no
   * result is longer than the input.
   */
  function SkipToLastSpace(s: string): (r: string)
    ensures |r| <= |s|
    ensures r == s || r == [] || (!IsTrimChar(r[0]) && !IsTrimChar(r[|r| - 1]))
    decreases |s|
  {
    var pos := StrPos(s, " ");
    if pos.Some? && pos.value > 0 then SkipToLastSpace(Trim(s[pos.value..])) else s
  }

  /**
   * What is left is a piece of the input; it holds a space only when no cut
   * happened because the input starts with one; an input without a space
   * after its first position is left as it is.
   */
  lemma {:induction false} SkipToLastSpaceMeaning(s: string)
    ensures IsInfix(SkipToLastSpace(s), s)
    ensures Contains(SkipToLastSpace(s), " ") ==> SkipToLastSpace(s) == s && StrPos(s, " ") == Some(0)
    ensures (StrPos(s, " ").None? || StrPos(s, " ") == Some(0)) ==> SkipToLastSpace(s) == s
    decreases |s|
  {
    var pos := StrPos(s, " ");
    if pos.Some? && pos.value > 0 {
      var t := Trim(s[pos.value..]);
      InfixOfInfix(t, s[pos.value..], s);
      SkipToLastSpaceMeaning(t);
      var r := SkipToLastSpace(t);
      InfixOfInfix(r, t, s);
      assert !OccursAt(t, " ", 0) by {
        if t != [] {
          assert !IsTrimChar(t[0]);
          assert t[0..1][0] == t[0];
        }
      }
    } else {
      assert s == s[0..|s|];
    }
  }

  /** The position of the last space, if there is one. */
  function LastSpace(s: string): (r: Option<nat>)
    ensures r.Some? ==> r.value < |s|
  {
    if s == [] then None
    else if s[|s| - 1] == ' ' then Some(|s| - 1)
    else LastSpace(s[..|s| - 1])
  }

  /** `LastSpace` finds a space with none after it, and none when there is no space. */
  lemma {:induction false} LastSpaceIsLast(s: string)
    ensures LastSpace(s).Some? ==> LastSpace(s).value < |s| && s[LastSpace(s).value] == ' '
                                   && NoSpaceAfter(s, LastSpace(s).value)
    ensures LastSpace(s).None? ==> NoSpaceAfter(s, -1)
  {
    if s != [] && s[|s| - 1] != ' ' {
      LastSpaceIsLast(s[..|s| - 1]);
    }
  }

  predicate NoSpace(x: string)
  {
    forall k :: 0 <= k < |x| ==> x[k] != ' '
  }

  /** No position after `j` holds a space. */
  predicate NoSpaceAfter(s: string, j: int)
  {
    forall k :: 0 <= k < |s| && j < k ==> s[k] != ' '
  }

  /**
   * An input that neither starts with a space nor ends with whitespace, and
   * holds a space: everything up to its last space is cut off and the rest
   * trimmed.
   */
  lemma SkipToLastSpaceCutsAtLastSpace(s: string)
    requires s != [] && s[0] != ' ' && !IsTrimChar(s[|s| - 1]) && Contains(s, " ")
    ensures exists j :: 0 <= j < |s| && s[j] == ' ' && !Contains(s[j + 1..], " ")
                        && SkipToLastSpace(s) == Trim(s[j + 1..])
  {
    var j := LastCut(s);
  }

  /** The cut of the whole input, at its last space. */
  lemma LastCut(s: string) returns (j: nat)
    requires s != [] && s[0] != ' ' && !IsTrimChar(s[|s| - 1]) && Contains(s, " ")
    ensures j < |s| && s[j] == ' ' && !Contains(s[j + 1..], " ") && SkipToLastSpace(s) == Trim(s[j + 1..])
  {
    CutWhole(s);
    j := LastSpace(s).value;
    NothingAfterLastSpace(s, j);
  }

  /** After the last space, no space. */
  lemma NothingAfterLastSpace(s: string, j: nat)
    requires LastSpace(s) == Some(j)
    ensures j < |s| && s[j] == ' ' && !Contains(s[j + 1..], " ")
  {
    LastSpaceIsLast(s);
    NoSpaceAfterIff(s, j);
    NoSpaceIff(s[j + 1..]);
  }

  /** The whole input is cut at its last space. */
  lemma CutWhole(s: string)
    requires s != [] && s[0] != ' ' && !IsTrimChar(s[|s| - 1]) && Contains(s, " ")
    ensures LastSpace(s).Some? && SkipToLastSpace(s) == Trim(s[LastSpace(s).value + 1..])
  {
    var pos, p := FirstCut(s);
    if Contains(s[p..], " ") {
      LastSpaceCutFrom(s, p);
    } else {
      CutBeforeSuffix(s, pos, p);
      SkipWithoutSpace(s[p..]);
    }
  }

  /** The suffix from `p` is cut at the last space of `s`. */
  lemma {:induction false} LastSpaceCutFrom(s: string, p: nat)
    requires p < |s| && s[p] != ' ' && !IsTrimChar(s[|s| - 1]) && Contains(s[p..], " ")
    ensures LastSpace(s).Some? && p < LastSpace(s).value
    ensures SkipToLastSpace(s[p..]) == Trim(s[LastSpace(s).value + 1..])
    decreases |s| - p
  {
    var pos, q := FirstCutFrom(s, p);
    if Contains(s[q..], " ") {
      LastSpaceCutFrom(s, q);
    } else {
      CutBeforeSuffix(s, pos, q);
      SkipWithoutSpace(s[q..]);
    }
  }

  /** No space after the cut at `pos`: the last space lies between `pos` and `q`, and what follows it trims to the suffix from `q`. */
  lemma CutBeforeSuffix(s: string, pos: nat, q: nat)
    requires 0 < pos < q < |s| && s[pos] == ' ' && TrimLeft(s[pos..]) == s[q..]
    requires !IsTrimChar(s[|s| - 1]) && !Contains(s[q..], " ")
    ensures LastSpace(s).Some? && pos <= LastSpace(s).value < q
    ensures Trim(s[LastSpace(s).value + 1..]) == s[q..]
  {
    LastSpaceBetween(s, pos, q);
    LastSpaceBeforeSuffix(s, pos, q, LastSpace(s).value);
  }

  /** One step of the loop on the suffix from `p`: the cut at its first space `pos`, leaving the suffix from `q`. */
  lemma FirstCutFrom(s: string, p: nat) returns (pos: nat, q: nat)
    requires p < |s| && s[p] != ' ' && !IsTrimChar(s[|s| - 1]) && Contains(s[p..], " ")
    ensures p < pos < q < |s| && s[pos] == ' ' && TrimLeft(s[pos..]) == s[q..] && s[q] != ' '
    ensures SkipToLastSpace(s[p..]) == SkipToLastSpace(s[q..])
  {
    var x := s[p..];
    SuffixEnds(s, p);
    var pos0, q0 := FirstCut(x);
    pos := p + pos0;
    q := p + q0;
    DropDrop(s, p, pos0, pos);
    DropDrop(s, p, q0, q);
    assert x[pos0] == s[pos];
  }

  /** One step of the loop: the cut at the first space `pos`, leaving the suffix from `p`. */
  lemma FirstCut(s: string) returns (pos: nat, p: nat)
    requires s != [] && s[0] != ' ' && !IsTrimChar(s[|s| - 1]) && Contains(s, " ")
    ensures 0 < pos < p < |s| && s[pos] == ' ' && TrimLeft(s[pos..]) == s[p..]
    ensures !IsTrimChar(s[p]) && SkipToLastSpace(s) == SkipToLastSpace(s[p..])
  {
    pos := StrPos(s, " ").value;
    SpaceOccurs(s, pos);
    SpaceOccurs(s, 0);
    p := TrimmedFrom(s, pos);
    SkipStep(s, pos, p);
  }

  lemma SkipStep(s: string, pos: nat, p: nat)
    requires StrPos(s, " ") == Some(pos) && 0 < pos <= p <= |s| && Trim(s[pos..]) == s[p..]
    ensures SkipToLastSpace(s) == SkipToLastSpace(s[p..])
  {
  }

  /** `trim` of the text from a space on, in a string ending in a non-whitespace character. */
  lemma TrimmedFrom(s: string, pos: nat) returns (p: nat)
    requires pos < |s| && s[pos] == ' ' && !IsTrimChar(s[|s| - 1])
    ensures pos < p < |s| && Trim(s[pos..]) == s[p..] && TrimLeft(s[pos..]) == s[p..] && !IsTrimChar(s[p])
  {
    SuffixEnds(s, pos);
    var d := TrimOfSpaced(s[pos..]);
    p := pos + d;
    DropDrop(s, pos, d, p);
    assert s[pos..][d] == s[p];
  }

  /** A string starting with a space and ending in a non-whitespace character: `trim` drops a prefix. */
  lemma TrimOfSpaced(x: string) returns (d: nat)
    requires x != [] && x[0] == ' ' && !IsTrimChar(x[|x| - 1])
    ensures 0 < d < |x| && Trim(x) == x[d..] && TrimLeft(x) == x[d..] && !IsTrimChar(x[d])
  {
    TrimOfNonTrimEnd(x);
    TrimLeftIsSuffix(x);
    d := |x| - |TrimLeft(x)|;
    assert TrimLeft(x) == TrimLeft(x[1..]);
  }

  lemma DropDrop(s: string, a: nat, b: nat, c: nat)
    requires c == a + b <= |s|
    ensures s[a..][b..] == s[c..]
  {
  }

  /** When the suffix from `p` holds no space, what follows the last space trims to that suffix. */
  lemma LastSpaceBeforeSuffix(s: string, pos: nat, p: nat, j: nat)
    requires 0 < pos < p < |s| && s[pos] == ' ' && TrimLeft(s[pos..]) == s[p..]
    requires !IsTrimChar(s[|s| - 1])
    requires pos <= j < p
    ensures Trim(s[j + 1..]) == s[p..]
  {
    TrimLeftFromLater(s, pos, p, j + 1);
    TrimToSuffix(s, p, s[j + 1..]);
  }

  /** Starting `ltrim` later, but not past where it stops, gives the same result. */
  lemma TrimLeftFromLater(s: string, pos: nat, p: nat, i: nat)
    requires pos <= i <= p <= |s| && TrimLeft(s[pos..]) == s[p..]
    ensures TrimLeft(s[i..]) == s[p..]
  {
    TrimLeftAfterDropping(s[pos..], i - pos);
    DropDrop(s, pos, i - pos, i);
    assert TrimLeft(s[pos..][i - pos..]) == TrimLeft(s[i..]);
  }

  /** What `ltrim`s to a suffix of `s` that does not end in whitespace also `trim`s to it. */
  lemma TrimToSuffix(s: string, p: nat, y: string)
    requires p < |s| && !IsTrimChar(s[|s| - 1]) && TrimLeft(y) == s[p..]
    ensures Trim(y) == s[p..]
  {
    SuffixEnds(s, p);
    TrimRightOfNonTrimEnd(s[p..]);
    TrimUnfolds(y);
  }

  /** The last space lies between a space at `pos` and a space-free suffix from `p`. */
  lemma LastSpaceBetween(s: string, pos: nat, p: nat)
    requires pos < p <= |s| && s[pos] == ' ' && !Contains(s[p..], " ")
    ensures LastSpace(s).Some? && pos <= LastSpace(s).value < p
  {
    NoSpaceIff(s[p..]);
    NoSpaceFrom(s, p);
    LastSpaceIsLast(s);
  }

  /** No space in the suffix from `i`: no position from `i` on holds one. */
  lemma NoSpaceFrom(s: string, i: nat)
    requires i <= |s| && NoSpace(s[i..])
    ensures NoSpaceAfter(s, i - 1)
  {
    assert forall k :: i <= k < |s| ==> s[k] == s[i..][k - i];
  }

  lemma NoSpaceAfterIff(s: string, j: nat)
    requires j < |s|
    ensures NoSpaceAfter(s, j) <==> NoSpace(s[j + 1..])
  {
    assert forall k :: j + 1 <= k < |s| ==> s[k] == s[j + 1..][k - j - 1];
  }

  lemma NoSpaceIff(x: string)
    ensures NoSpace(x) <==> !Contains(x, " ")
  {
    if Contains(x, " ") {
      SpaceOccurs(x, StrPos(x, " ").value);
    }
    if !NoSpace(x) {
      var k :| 0 <= k < |x| && x[k] == ' ';
      SpaceOccurs(x, k);
    }
  }

  lemma SuffixEnds(s: string, p: nat)
    requires p < |s|
    ensures s[p..] != [] && s[p..][0] == s[p] && s[p..][|s[p..]| - 1] == s[|s| - 1]
  {
  }

  lemma SkipWithoutSpace(t: string)
    requires !Contains(t, " ")
    ensures SkipToLastSpace(t) == t
  {
  }

  lemma SpaceOccurs(s: string, k: nat)
    ensures OccursAt(s, " ", k) <==> k < |s| && s[k] == ' '
  {
    if k < |s| {
      assert s[k..k + 1] == [s[k]];
    }
  }

  lemma InfixOfInfix(a: string, b: string, c: string)
    requires IsInfix(a, b)
    requires IsInfix(b, c) || exists k :: 0 <= k <= |c| && b == c[k..]
    ensures IsInfix(a, c)
  {
    var i, j :| 0 <= i <= j <= |b| && a == b[i..j];
    var p, q;
    if IsInfix(b, c) {
      p, q :| 0 <= p <= q <= |c| && b == c[p..q];
    } else {
      var k :| 0 <= k <= |c| && b == c[k..];
      p, q := k, |c|;
    }
    SliceOfSlice(c, p, q, i, j);
    assert a == c[p + i..p + j];
  }

  lemma SliceOfSlice(c: string, p: int, q: int, i: int, j: int)
    requires 0 <= p <= q <= |c| && 0 <= i <= j <= q - p
    ensures c[p..q][i..j] == c[p + i..p + j]
  {
    assert forall n :: 0 <= n < j - i ==> c[p..q][i..j][n] == c[p + i + n];
  }

  /** The decimal-separator test: a comma after position 0 and after the first dot, or no dot at all. */
  predicate HasDecimalComma(t: string)
  {
    var comma := StrPos(t, ",");
    var dot := StrPos(t, ".");
    comma.Some? && comma.value > 0 && (dot.None? || comma.value > dot.value)
  }

  /** A decimal comma: thousands dots removed and the comma made the decimal point. */
  function DecimalComma(t: string): string
  {
    if HasDecimalComma(t) then Replace(Replace(t, ".", ""), ",", ".") else t
  }

  /** The string `convertNumberString` hands to `floatval`: it holds no euro sign. */
  function NormalisedNumber(s: string): (r: string)
    ensures '€' !in r
  {
    var skipped := SkipToLastSpace(s);
    var removed := Replace(skipped, "€", "");
    ReplaceCharRemoved(skipped, '€', "");
    assert "€" == ['€'];
    var t := Trim(removed);
    InfixChars(t, removed);
    var dotless := Replace(t, ".", "");
    ReplaceCharFree(t, '.', "", '€');
    ReplaceCharFree(dotless, ',', ".", '€');
    DecimalComma(t)
  }

  /** Character by character: dots dropped, commas turned into dots, everything else kept. */
  function PointedChars(t: string): string
    decreases |t|
  {
    if t == [] then []
    else
      var c := t[|t| - 1];
      PointedChars(t[..|t| - 1]) + (if c == '.' then "" else if c == ',' then "." else [c])
  }

  /** The two replacements of a decimal comma, read character by character. */
  lemma {:induction false} DecimalCommaByCharacter(t: string)
    ensures Replace(Replace(t, ".", ""), ",", ".") == PointedChars(t)
    decreases |t|
  {
    if t != [] {
      var init := t[..|t| - 1];
      var c := t[|t| - 1];
      DecimalCommaByCharacter(init);
      assert t == init + [c];
      ReplaceCharAppend(init, [c], '.', "");
      var dropped := Replace([c], ".", "");
      assert dropped == if c == '.' then "" else [c];
      ReplaceCharAppend(Replace(init, ".", ""), dropped, ',', ".");
      assert Replace(dropped, ",", ".") == if c == '.' then "" else if c == ',' then "." else [c];
    }
  }

  /**
   * The normalised string holds no euro sign; after a decimal comma it
   * holds no comma, and it is the character-wise rewrite of the trimmed
   * string; without one it is the trimmed string unchanged.
   */
  lemma NormalisedNumberMeaning(s: string)
    ensures '€' !in NormalisedNumber(s)
    ensures var t := Trim(Replace(SkipToLastSpace(s), "€", ""));
            && (HasDecimalComma(t) ==> NormalisedNumber(s) == PointedChars(t) && ',' !in NormalisedNumber(s))
            && (!HasDecimalComma(t) ==> NormalisedNumber(s) == t)
  {
    var skipped := SkipToLastSpace(s);
    var removed := Replace(skipped, "€", "");
    ReplaceCharRemoved(skipped, '€', "");
    assert "€" == ['€'];
    var t := Trim(removed);
    InfixChars(t, removed);
    if HasDecimalComma(t) {
      DecimalCommaByCharacter(t);
      var dotless := Replace(t, ".", "");
      ReplaceCharFree(t, '.', "", '€');
      ReplaceCharFree(dotless, ',', ".", '€');
      ReplaceCharRemoved(dotless, ',', ".");
    }
  }

  lemma InfixChars(a: string, b: string)
    requires IsInfix(a, b)
    ensures forall c :: c in a ==> c in b
  {
    var i, j :| 0 <= i <= j <= |b| && a == b[i..j];
    forall c | c in a ensures c in b {
      var k :| 0 <= k < |a| && a[k] == c;
      assert b[i + k] == c;
    }
  }

  /** `convertNumberString` up to its `floatval`: the string the loop and the replacements produce. */
  method ConvertNumberString(input: string) returns (numberString: string)
    ensures numberString == NormalisedNumber(input)
  {
    numberString := input;
    var pos := StrPos(numberString, " ");
    while pos.Some? && pos.value > 0
      invariant pos == StrPos(numberString, " ")
      invariant SkipToLastSpace(numberString) == SkipToLastSpace(input)
      decreases |numberString|
    {
      numberString := Trim(numberString[pos.value..]);
      pos := StrPos(numberString, " ");
    }
    numberString := Trim(Replace(numberString, "€", ""));
    var comma := StrPos(numberString, ",");
    var dot := StrPos(numberString, ".");
    if comma.Some? && comma.value > 0 && (dot.None? || comma.value > dot.value) {
      numberString := Replace(numberString, ".", "");
      numberString := Replace(numberString, ",", ".");
    }
  }
}
