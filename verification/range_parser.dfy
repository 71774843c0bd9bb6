/**
 * `parseChineseRange` of the boss-data converter: a respawn text such as
 * `3小時30分~4小時` ("3 hours 30 minutes to 4 hours") becomes a range of
 * minutes. Full-width parentheses are dropped, the text is trimmed and split
 * at `~`, and each side counts the first number before `小時` (hours) and
 * the first number before `分` (minutes).
 */
module RangeParser {
  import opened Wrappers
  import opened Decimal
  import opened JsText

  /** A respawn window in minutes, `{ min, max }`. */
  datatype MinuteRange = MinuteRange(min: int, max: int)

  predicate IsParen(c: char) {
    c == '（' || c == '）'
  }

  /** The number of tildes in `s`. */
  function Tildes(s: string): (n: nat)
    ensures n == 0 <==> '~' !in s
  {
    if s == [] then 0 else (if s[0] == '~' then 1 else 0) + Tildes(s[1..])
  }

  lemma {:induction false} TildesConcat(a: string, b: string)
    ensures Tildes(a + b) == Tildes(a) + Tildes(b)
    decreases |a|
  {
    if a == [] {
      assert a + b == b;
    } else {
      assert (a + b)[1..] == a[1..] + b;
      TildesConcat(a[1..], b);
    }
  }

  /** `s.replace(/（|）/g, '')`. */
  function RemoveParens(s: string): (r: string)
    ensures Tildes(r) == Tildes(s)
    ensures forall i :: 0 <= i < |r| ==> !IsParen(r[i])
  {
    if s == [] then []
    else
      var rest := RemoveParens(s[1..]);
      if IsParen(s[0]) then rest
      else
        assert ([s[0]] + rest)[1..] == rest;
        [s[0]] + rest
  }

  /** The index of the first `c` in `s`. */
  function FirstIndex(s: string, c: char): (i: nat)
    requires c in s
    ensures i < |s| && s[i] == c && c !in s[..i]
  {
    if s[0] == c then 0 else 1 + FirstIndex(s[1..], c)
  }

  /** `s.split('~')`: the pieces between the tildes. */
  function Split(s: string): (parts: seq<string>)
    ensures |parts| == Tildes(s) + 1
    ensures forall j :: 0 <= j < |parts| ==> '~' !in parts[j]
    decreases |s|
  {
    if '~' !in s then [s]
    else
      var i := FirstIndex(s, '~');
      assert s == s[..i] + ([s[i]] + s[i + 1..]);
      TildesConcat(s[..i], [s[i]] + s[i + 1..]);
      assert ([s[i]] + s[i + 1..])[1..] == s[i + 1..];
      [s[..i]] + Split(s[i + 1..])
  }

  /** The end of the run of digits that starts at `p`. */
  function DigitRunEnd(s: string, p: nat): (q: nat)
    requires p <= |s|
    ensures p <= q <= |s| && AllDigits(s[p..q])
    ensures q == |s| || !IsDigit(s[q])
    decreases |s| - p
  {
    if p < |s| && IsDigit(s[p]) then DigitRunEnd(s, p + 1) else p
  }

  /** The end of the run of white space that starts at `p`. */
  function SpaceRunEnd(s: string, p: nat): (q: nat)
    requires p <= |s|
    ensures p <= q <= |s| && forall i :: p <= i < q ==> IsSpace(s[i])
    ensures q == |s| || !IsSpace(s[q])
    decreases |s| - p
  {
    if p < |s| && IsSpace(s[p]) then SpaceRunEnd(s, p + 1) else p
  }

  /**
   * The pattern `(\d+)\s*<unit>` tried at position `p`: the digits it
   * captures. For a unit that starts with neither a digit nor white space,
   * backtracking into `\d+` or `\s*` cannot help, so the greedy runs are the
   * only candidates (`MatchAtMeaning`).
   */
  function MatchAt(s: string, p: nat, unit: string): (m: Option<string>)
    requires p <= |s|
    ensures m.Some? ==> |m.value| >= 1 && AllDigits(m.value)
  {
    if p < |s| && IsDigit(s[p]) then
      var q := DigitRunEnd(s, p);
      var w := SpaceRunEnd(s, q);
      if unit <= s[w..] then Some(s[p..q]) else None
    else None
  }

  /** `s.match(/(\d+)\s*<unit>/)` from position `from` on: the leftmost match. */
  function FirstMatch(s: string, unit: string, from: nat): (m: Option<string>)
    requires from <= |s|
    ensures m.Some? ==> |m.value| >= 1 && AllDigits(m.value)
    decreases |s| - from
  {
    if from == |s| then None
    else if MatchAt(s, from, unit).Some? then MatchAt(s, from, unit)
    else FirstMatch(s, unit, from + 1)
  }

  /**
   * The match found is the one at the leftmost position where the pattern
   * matches.
   */
  lemma FirstMatchIsLeftmost(s: string, unit: string, from: nat, p: nat)
    requires from <= p <= |s| && MatchAt(s, p, unit).Some?
    requires forall i :: from <= i < p ==> MatchAt(s, i, unit).None?
    ensures FirstMatch(s, unit, from) == MatchAt(s, p, unit)
  {
    FirstMatchSkip(s, unit, from, p);
  }

  /** There is no match exactly when the pattern matches at no position. */
  lemma {:induction false} FirstMatchNone(s: string, unit: string, from: nat)
    requires from <= |s|
    ensures FirstMatch(s, unit, from).None? <==> forall p :: from <= p <= |s| ==> MatchAt(s, p, unit).None?
    decreases |s| - from
  {
    if from < |s| {
      FirstMatchNone(s, unit, from + 1);
    }
  }

  /**
   * A unit that starts with neither a digit nor white space, as `小時` and
   * `分` do: the digits and the white space before it cannot be shared with it.
   */
  predicate PlainUnit(unit: string) {
    unit == [] || (!IsDigit(unit[0]) && !IsSpace(unit[0]))
  }

  /**
   * What `(\d+)\s*<unit>` means at position `p`: the pattern matches exactly
   * when some non-empty digit run starting at `p` is followed by white space
   * and then the unit, and the group it captures is the whole digit run at `p`.
   */
  lemma MatchAtMeaning(s: string, p: nat, unit: string)
    requires p <= |s| && PlainUnit(unit)
    ensures MatchAt(s, p, unit).Some? <==>
      exists q, w :: p < q <= w <= |s| && AllDigits(s[p..q]) && AllSpace(s[q..w]) && unit <= s[w..]
    ensures MatchAt(s, p, unit).Some? ==>
      var v := MatchAt(s, p, unit).value;
      p + |v| <= |s| && s[p..p + |v|] == v && (p + |v| == |s| || !IsDigit(s[p + |v|]))
  {
    if MatchAt(s, p, unit).Some? {
      var q := DigitRunEnd(s, p);
      var w := SpaceRunEnd(s, q);
      assert p < q;
      assert AllSpace(s[q..w]);
    } else {
      forall q, w | p < q <= w <= |s| && AllDigits(s[p..q]) && AllSpace(s[q..w])
        ensures !(unit <= s[w..])
      {
        if unit <= s[w..] {
          MatchWitness(s, p, unit, q, w);
        }
      }
    }
  }

  /** The two units the converter looks for are plain. */
  lemma UnitsArePlain()
    ensures PlainUnit(Hours) && PlainUnit(Minutes)
  {
  }

  /** A digit run, white space and the unit at `p` make the pattern match there. */
  lemma MatchWitness(s: string, p: nat, unit: string, q: nat, w: nat)
    requires p < q <= w <= |s| && PlainUnit(unit)
    requires AllDigits(s[p..q]) && AllSpace(s[q..w]) && unit <= s[w..]
    ensures MatchAt(s, p, unit).Some?
  {
    assert IsDigit(s[p]) by {
      assert s[p..q][0] == s[p];
    }
    if unit != [] {
      assert q == |s| || !IsDigit(s[q]) by {
        if q < |s| {
          if w > q {
            assert IsSpace(s[q..w][0]);
          } else {
            assert s[w..][0] == unit[0];
          }
        }
      }
      DigitRunEndUnique(s, p, q);
      assert w == |s| || !IsSpace(s[w]) by {
        if w < |s| {
          assert s[w..][0] == unit[0];
        }
      }
      SpaceRunEndUnique(s, q, w);
    }
  }

  /** A digit run from `p` that stops before a non-digit ends where `DigitRunEnd` says. */
  lemma {:induction false} DigitRunEndUnique(s: string, p: nat, q: nat)
    requires p <= q <= |s| && AllDigits(s[p..q]) && (q == |s| || !IsDigit(s[q]))
    ensures DigitRunEnd(s, p) == q
    decreases q - p
  {
    if p < q {
      assert s[p..q][0] == s[p];
      assert s[p + 1..q] == s[p..q][1..];
      DigitRunEndUnique(s, p + 1, q);
    }
  }

  /** A white-space run from `q` that stops before a non-space ends where `SpaceRunEnd` says. */
  lemma {:induction false} SpaceRunEndUnique(s: string, q: nat, w: nat)
    requires q <= w <= |s| && AllSpace(s[q..w]) && (w == |s| || !IsSpace(s[w]))
    ensures SpaceRunEnd(s, q) == w
    decreases w - q
  {
    if q < w {
      assert s[q..w][0] == s[q];
      assert s[q + 1..w] == s[q..w][1..];
      SpaceRunEndUnique(s, q + 1, w);
    }
  }

  /** `parseInt(match[1], 10)` when there is a match, else 0. */
  function MatchedValue(m: Option<string>): nat {
    if m.Some? && AllDigits(m.value) then DigitsValue(m.value) else 0
  }

  const Hours: string := "小時"
  const Minutes: string := "分"

  /** `toMinutes(t)`: 60 times the hours plus the minutes of one side. */
  function ToMinutes(t: string): (r: nat)
    ensures '小' !in t && '分' !in t ==> r == 0
  {
    UnitsOutsideTrim(t);
    var t := Trim(t);
    60 * MatchedValue(FirstMatch(t, Hours, 0)) + MatchedValue(FirstMatch(t, Minutes, 0))
  }

  /** Trimming brings in no unit character, so a unit absent from the text is not matched. */
  lemma UnitsOutsideTrim(t: string)
    ensures '小' !in t ==> FirstMatch(Trim(t), Hours, 0) == None
    ensures '分' !in t ==> FirstMatch(Trim(t), Minutes, 0) == None
  {
    TrimSurrounds(t);
    var a, b :| t == a + Trim(t) + b && AllSpace(a) && AllSpace(b);
    assert forall c :: c in Trim(t) ==> c in t;
    if '小' !in t {
      FirstMatchAbsent(Trim(t), Hours, 0);
    }
    if '分' !in t {
      FirstMatchAbsent(Trim(t), Minutes, 0);
    }
  }

  /** White space between the number and the unit is allowed: `1 小時` is 60 minutes. */
  lemma SpacedHourExample()
    ensures ToMinutes("1 小時") == 60
  {
    SpacedHourMatches();
    assert DigitsValue("1") == 1;
  }

  lemma SpacedHourMatches()
    ensures Trim("1 小時") == "1 小時"
    ensures FirstMatch("1 小時", Hours, 0) == Some("1")
    ensures FirstMatch("1 小時", Minutes, 0) == None
  {
    var d := "1 小時";
    TrimNoEdges(d);
    assert MatchAt(d, 0, Hours) == Some("1") by {
      DigitRunEndUnique(d, 0, 1);
      SpaceRunEndUnique(d, 1, 2);
      assert d[0..1] == "1" && Hours <= d[2..];
    }
    FirstMatchAbsent(d, Minutes, 0);
  }

  /** Text before the number is skipped: `約45分` is 45 minutes. */
  lemma PrefixedMinuteExample()
    ensures ToMinutes("約45分") == 45
  {
    PrefixedMinuteMatches();
    assert DigitsValue("45") == 45 by {
      assert "45"[..1] == "4";
    }
  }

  lemma PrefixedMinuteMatches()
    ensures Trim("約45分") == "約45分"
    ensures FirstMatch("約45分", Minutes, 0) == Some("45")
    ensures FirstMatch("約45分", Hours, 0) == None
  {
    var d := "約45分";
    TrimNoEdges(d);
    assert MatchAt(d, 0, Minutes) == None;
    assert MatchAt(d, 1, Minutes) == Some("45") by {
      DigitRunEndUnique(d, 1, 3);
      assert SpaceRunEnd(d, 3) == 3;
      assert d[1..3] == "45" && Minutes <= d[3..];
    }
    FirstMatchIsLeftmost(d, Minutes, 0, 1);
    FirstMatchAbsent(d, Hours, 0);
  }

  function Min(a: int, b: int): int {
    if a <= b then a else b
  }

  function Max(a: int, b: int): int {
    if a <= b then b else a
  }

  /**
   * `parseChineseRange(s)`; `None` as input stands for any value that is
   * not a string. Both sides always count as a number of minutes, so the
   * `isNaN` branch of the source never returns.
   */
  function ParseChineseRange(input: Option<string>): (r: Option<MinuteRange>)
    ensures input.None? || input == Some("") ==> r.None?
    ensures input.Some? && input.value != "" ==> (r.Some? <==> Tildes(input.value) == 1)
    ensures r.Some? ==> 0 <= r.value.min <= r.value.max
  {
    if input.None? || input.value == "" then None
    else
      TrimKeepsTildes(RemoveParens(input.value));
      var parts := Split(Trim(RemoveParens(input.value)));
      if |parts| != 2 then None
      else
        var a := ToMinutes(parts[0]);
        var b := ToMinutes(parts[1]);
        Some(MinuteRange(Min(a, b), Max(a, b)))
  }

  /** Trimming removes white space only, so it keeps every tilde. */
  lemma TrimKeepsTildes(s: string)
    ensures Tildes(Trim(s)) == Tildes(s)
  {
    TrimStartKeepsTildes(s);
    TrimEndKeepsTildes(TrimStart(s));
  }

  lemma TrimStartKeepsTildes(s: string)
    ensures Tildes(TrimStart(s)) == Tildes(s)
  {
    var k := LeadingSpaces(s);
    assert s == s[..k] + TrimStart(s);
    TildesConcat(s[..k], TrimStart(s));
    SpacesHaveNoTilde(s[..k]);
  }

  lemma TrimEndKeepsTildes(t: string)
    ensures Tildes(TrimEnd(t)) == Tildes(t)
  {
    var j := TrailingStart(t);
    assert t == TrimEnd(t) + t[j..];
    TildesConcat(TrimEnd(t), t[j..]);
    SpacesHaveNoTilde(t[j..]);
  }

  /** White space holds no tilde. */
  lemma SpacesHaveNoTilde(x: string)
    requires forall i :: 0 <= i < |x| ==> IsSpace(x[i])
    ensures Tildes(x) == 0
  {
    assert '~' !in x;
  }

  /** Trimming a side of a range text again does not change what it counts. */
  lemma ToMinutesTrimmed(x: string, y: string)
    ensures ToMinutes(TrimStart(x)) == ToMinutes(x)
    ensures ToMinutes(TrimEnd(y)) == ToMinutes(y)
  {
    TrimStartTwice(x);
    TrimCommutes(y);
    TrimEndTwice(TrimStart(y));
    TrimCommutes(TrimEnd(y));
    TrimEndTwice(y);
  }

  lemma {:induction false} RemoveParensConcat(a: string, b: string)
    ensures RemoveParens(a + b) == RemoveParens(a) + RemoveParens(b)
    decreases |a|
  {
    if a != [] {
      assert (a + b)[1..] == a[1..] + b;
      RemoveParensConcat(a[1..], b);
    } else {
      assert a + b == b;
    }
  }

  /** With a single tilde, the text splits into the two sides around it. */
  lemma SplitAtTilde(a: string, b: string)
    requires '~' !in a && '~' !in b
    ensures Split(a + "~" + b) == [a, b]
  {
    var s := a + "~" + b;
    var i := FirstIndex(s, '~');
    assert s[..i] == a;
    assert s[i + 1..] == b;
  }

  lemma RemoveParensAroundTilde(a: string, b: string)
    ensures RemoveParens(a + "~" + b) == RemoveParens(a) + "~" + RemoveParens(b)
  {
    calc {
      RemoveParens(a + "~" + b);
      { assert a + "~" + b == a + ("~" + b); }
      RemoveParens(a + ("~" + b));
      { RemoveParensConcat(a, "~" + b); }
      RemoveParens(a) + RemoveParens("~" + b);
      { RemoveParensConcat("~", b);
        assert RemoveParens("~") == "~" by { assert "~"[1..] == []; } }
      RemoveParens(a) + ("~" + RemoveParens(b));
      RemoveParens(a) + "~" + RemoveParens(b);
    }
  }

  lemma TrimAroundTilde(x: string, y: string)
    ensures Trim(x + "~" + y) == TrimStart(x) + "~" + TrimEnd(y)
  {
    TrimStartConcat(x, "~" + y);
    assert x + "~" + y == x + ("~" + y);
    var tx := TrimStart(x);
    TrimEndConcat(tx + "~", y);
    assert tx + ("~" + y) == (tx + "~") + y;
  }

  /**
   * A text with exactly one tilde gives the smaller and the larger of its
   * two sides, each counted after dropping parentheses.
   */
  lemma ParseSides(a: string, b: string)
    requires '~' !in a && '~' !in b
    ensures var x := ToMinutes(RemoveParens(a));
      var y := ToMinutes(RemoveParens(b));
      ParseChineseRange(Some(a + "~" + b)) == Some(MinuteRange(Min(x, y), Max(x, y)))
  {
    var ra, rb := RemoveParens(a), RemoveParens(b);
    RemoveParensAroundTilde(a, b);
    TrimAroundTilde(ra, rb);
    var ta, tb := TrimStart(ra), TrimEnd(rb);
    assert '~' !in ta && '~' !in tb;
    SplitAtTilde(ta, tb);
    ToMinutesTrimmed(ra, rb);
  }

  /** Writing the two sides the other way round gives the same range. */
  lemma ParseSwapSides(a: string, b: string)
    requires '~' !in a && '~' !in b
    ensures ParseChineseRange(Some(a + "~" + b)) == ParseChineseRange(Some(b + "~" + a))
  {
    var x := ToMinutes(RemoveParens(a));
    var y := ToMinutes(RemoveParens(b));
    ParseSides(a, b);
    ParseSides(b, a);
    assert Min(x, y) == Min(y, x) && Max(x, y) == Max(y, x);
  }

  /** A digit run from `p` to `q`, followed by neither a digit nor white space, is what the pattern tries at `p`. */
  lemma MatchAtRun(s: string, p: nat, q: nat, unit: string)
    requires p < q <= |s| && (forall i :: p <= i < q ==> IsDigit(s[i]))
    requires q == |s| || (!IsDigit(s[q]) && !IsSpace(s[q]))
    ensures MatchAt(s, p, unit) == if unit <= s[q..] then Some(s[p..q]) else None
  {
    assert DigitRunEnd(s, p) == q;
  }

  /** Positions where the pattern does not match are skipped. */
  lemma {:induction false} FirstMatchSkip(s: string, unit: string, from: nat, p: nat)
    requires from <= p <= |s|
    requires forall i :: from <= i < p ==> MatchAt(s, i, unit).None?
    ensures FirstMatch(s, unit, from) == FirstMatch(s, unit, p)
    decreases p - from
  {
    if from < p {
      FirstMatchSkip(s, unit, from + 1, p);
    }
  }

  /** Without the first character of the unit there is no match. */
  lemma {:induction false} FirstMatchAbsent(s: string, unit: string, from: nat)
    requires from <= |s| && unit != [] && unit[0] !in s
    ensures FirstMatch(s, unit, from) == None
    decreases |s| - from
  {
    if from < |s| {
      FirstMatchAbsent(s, unit, from + 1);
    }
  }

  /** How the boss data spells a duration: `<h>小時<m>分`, either part optional. */
  function Spelled(h: Option<nat>, m: Option<nat>): string {
    (if h.Some? then NatStr(h.value) + Hours else "") + (if m.Some? then NatStr(m.value) + Minutes else "")
  }

  lemma SpelledTrimmed(h: Option<nat>, m: Option<nat>)
    ensures Trim(Spelled(h, m)) == Spelled(h, m)
  {
    if Spelled(h, m) != [] {
      SpelledEnds(h, m);
    }
    TrimNoEdges(Spelled(h, m));
  }

  /** A spelled duration starts with a digit and ends with a unit. */
  lemma SpelledEnds(h: Option<nat>, m: Option<nat>)
    requires Spelled(h, m) != []
    ensures IsDigit(Spelled(h, m)[0])
    ensures Spelled(h, m)[|Spelled(h, m)| - 1] in {'時', '分'}
  {
    var hs := if h.Some? then NatStr(h.value) + Hours else "";
    var ms := if m.Some? then NatStr(m.value) + Minutes else "";
    assert Spelled(h, m) == hs + ms;
    if hs != [] {
      assert hs[0] == NatStr(h.value)[0];
    } else {
      assert ms[0] == NatStr(m.value)[0];
    }
    if ms != [] {
      assert ms[|ms| - 1] == '分';
    } else {
      assert hs[|hs| - 1] == '時';
    }
  }

  lemma SpelledHours(h: Option<nat>, m: Option<nat>)
    ensures MatchedValue(FirstMatch(Spelled(h, m), Hours, 0)) == h.GetOr(0)
  {
    var d := Spelled(h, m);
    if h.Some? {
      var hs := NatStr(h.value);
      assert d[|hs|] == '小' && d[|hs| + 1] == '時';
      MatchAtRun(d, 0, |hs|, Hours);
      assert d[|hs|..][..2] == Hours;
      assert d[0..|hs|] == hs;
      NatStrRoundTrip(h.value);
    } else {
      assert '小' !in d;
      FirstMatchAbsent(d, Hours, 0);
    }
  }

  lemma MinutesMatchAt(d: string, start: nat, ms: string)
    requires start <= |d| && |ms| >= 1 && AllDigits(ms) && d[start..] == ms + Minutes
    ensures FirstMatch(d, Minutes, start) == Some(ms)
  {
    assert d[start + |ms|] == '分';
    MatchAtRun(d, start, start + |ms|, Minutes);
    assert d[start + |ms|..][..1] == Minutes;
    assert d[start..start + |ms|] == ms;
  }

  /** Nothing before the end of an hours part matches the minutes pattern. */
  lemma HoursPartSkipped(hs: string, rest: string)
    requires |hs| >= 1 && AllDigits(hs)
    ensures forall i :: 0 <= i < |hs| + 2 ==> MatchAt(hs + Hours + rest, i, Minutes).None?
  {
    var d := hs + Hours + rest;
    assert d[|hs|] == '小' && d[|hs| + 1] == '時';
    forall i | 0 <= i < |hs|
      ensures MatchAt(d, i, Minutes).None?
    {
      MatchAtRun(d, i, |hs|, Minutes);
    }
  }

  lemma SpelledMinutes(h: Option<nat>, m: Option<nat>)
    ensures MatchedValue(FirstMatch(Spelled(h, m), Minutes, 0)) == m.GetOr(0)
  {
    var d := Spelled(h, m);
    if m.Some? {
      var ms := NatStr(m.value);
      NatStrRoundTrip(m.value);
      if h.Some? {
        var hs := NatStr(h.value);
        assert d == hs + Hours + (ms + Minutes);
        MinutesAfterHours(hs, ms);
      } else {
        MinutesMatchAt(d, 0, ms);
      }
    } else {
      assert '分' !in d by {
        HoursOnly(h);
      }
      FirstMatchAbsent(d, Minutes, 0);
    }
  }

  /** In `<h>小時<m>分` the minutes pattern first matches at `<m>`. */
  lemma MinutesAfterHours(hs: string, ms: string)
    requires |hs| >= 1 && AllDigits(hs) && |ms| >= 1 && AllDigits(ms)
    ensures FirstMatch(hs + Hours + (ms + Minutes), Minutes, 0) == Some(ms)
  {
    var d := hs + Hours + (ms + Minutes);
    HoursPartSkipped(hs, ms + Minutes);
    FirstMatchSkip(d, Minutes, 0, |hs| + 2);
    MinutesAfterPrefix(hs + Hours, ms);
  }

  /** After any prefix, `<m>分` is where the minutes pattern matches. */
  lemma MinutesAfterPrefix(pre: string, ms: string)
    requires |ms| >= 1 && AllDigits(ms)
    ensures FirstMatch(pre + (ms + Minutes), Minutes, |pre|) == Some(ms)
  {
    var d := pre + (ms + Minutes);
    assert d[|pre|..] == ms + Minutes;
    MinutesMatchAt(d, |pre|, ms);
  }

  /** A duration spelled without minutes has no minutes unit. */
  lemma HoursOnly(h: Option<nat>)
    ensures '分' !in Spelled(h, None)
  {
    if h.Some? {
      assert Spelled(h, None) == NatStr(h.value) + Hours;
      assert forall i :: 0 <= i < |NatStr(h.value)| ==> IsDigit(NatStr(h.value)[i]);
    }
  }

  /** Counting the minutes of a spelled duration gives back 60 h + m. */
  lemma ToMinutesOfSpelled(h: Option<nat>, m: Option<nat>)
    ensures ToMinutes(Spelled(h, m)) == 60 * h.GetOr(0) + m.GetOr(0)
  {
    SpelledTrimmed(h, m);
    SpelledHours(h, m);
    SpelledMinutes(h, m);
  }

  /** The documented example `45分~1小時`. */
  lemma ExampleFortyFiveMinutesToOneHour()
    ensures ParseChineseRange(Some("45分~1小時")) == Some(MinuteRange(45, 60))
  {
    assert NatStr(45) == "45" && NatStr(1) == "1";
    assert "45分~1小時" == Spelled(None, Some(45)) + "~" + Spelled(Some(1), None);
    SpelledSide(None, Some(45));
    SpelledSide(Some(1), None);
    ParseSides(Spelled(None, Some(45)), Spelled(Some(1), None));
  }

  /** The documented example `20分~1小時`. */
  lemma ExampleTwentyMinutesToOneHour()
    ensures ParseChineseRange(Some("20分~1小時")) == Some(MinuteRange(20, 60))
  {
    assert NatStr(20) == "20" && NatStr(1) == "1";
    assert "20分~1小時" == Spelled(None, Some(20)) + "~" + Spelled(Some(1), None);
    SpelledSide(None, Some(20));
    SpelledSide(Some(1), None);
    ParseSides(Spelled(None, Some(20)), Spelled(Some(1), None));
  }

  /** The documented example `3小時30分~4小時`. */
  lemma ExampleThreeAndAHalfToFourHours()
    ensures ParseChineseRange(Some("3小時30分~4小時")) == Some(MinuteRange(210, 240))
  {
    assert NatStr(3) == "3" && NatStr(30) == "30" && NatStr(4) == "4";
    assert "3小時30分~4小時" == Spelled(Some(3), Some(30)) + "~" + Spelled(Some(4), None);
    SpelledSide(Some(3), Some(30));
    SpelledSide(Some(4), None);
    ParseSides(Spelled(Some(3), Some(30)), Spelled(Some(4), None));
  }

  /** A spelled duration has no tilde and reads back as its minutes. */
  lemma SpelledSide(h: Option<nat>, m: Option<nat>)
    ensures '~' !in Spelled(h, m)
    ensures ToMinutes(RemoveParens(Spelled(h, m))) == 60 * h.GetOr(0) + m.GetOr(0)
  {
    var d := Spelled(h, m);
    assert '~' !in d by {
      forall i | 0 <= i < |d|
        ensures d[i] != '~'
      {
        SpelledChar(h, m, i);
      }
    }
    assert RemoveParens(d) == d by {
      RemoveParensSpelled(h, m);
    }
    ToMinutesOfSpelled(h, m);
  }

  /** Every character of a spelled duration is a digit or a unit character. */
  lemma SpelledChar(h: Option<nat>, m: Option<nat>, i: nat)
    requires i < |Spelled(h, m)|
    ensures IsDigit(Spelled(h, m)[i]) || Spelled(h, m)[i] in Hours + Minutes
  {
    var hs := if h.Some? then NatStr(h.value) + Hours else "";
    var ms := if m.Some? then NatStr(m.value) + Minutes else "";
    assert Spelled(h, m) == hs + ms;
    if i < |hs| {
      PartChar(h.value, Hours, i);
    } else {
      PartChar(m.value, Minutes, i - |hs|);
    }
  }

  lemma PartChar(n: nat, unit: string, i: nat)
    requires i < |NatStr(n) + unit|
    ensures IsDigit((NatStr(n) + unit)[i]) || (NatStr(n) + unit)[i] in unit
  {
    if i >= |NatStr(n)| {
      assert (NatStr(n) + unit)[i] == unit[i - |NatStr(n)|];
    }
  }

  lemma {:induction false} RemoveParensNone(s: string)
    requires forall i :: 0 <= i < |s| ==> !IsParen(s[i])
    ensures RemoveParens(s) == s
    decreases |s|
  {
    if s != [] {
      RemoveParensNone(s[1..]);
      assert s == [s[0]] + s[1..];
    }
  }

  lemma RemoveParensSpelled(h: Option<nat>, m: Option<nat>)
    ensures RemoveParens(Spelled(h, m)) == Spelled(h, m)
  {
    var d := Spelled(h, m);
    forall i | 0 <= i < |d|
      ensures !IsParen(d[i])
    {
      SpelledChar(h, m, i);
    }
    RemoveParensNone(d);
  }
}
