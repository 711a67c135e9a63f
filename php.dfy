/** The small part of PHP's runtime the plugin relies on: truthiness of strings,
    `trim`, `strtoupper`, `explode`/`implode`, and the shape of stored setting values. */
module Php {

  datatype Option<T> = None | Some(value: T)

  /** `$x ?? $default` on a lookup that may miss. */
  function OrElse<T>(o: Option<T>, default: Option<T>): Option<T>
  {
    if o.Some? then o else default
  }

  /** A stored setting value after unserialising: a scalar string or a list of strings
      (the plugin saves `role_exceptions` and `ip_allowlist` as arrays, everything else as strings). */
  datatype Value = Str(s: string) | List(items: seq<string>)

  /** PHP `empty()` / falsiness of a string: only "" and "0" are empty
      (so "  " and "00" are not). */
  predicate EmptyString(s: string)
  {
    s == "" || s == "0"
  }

  /** PHP `empty()` of a setting value. */
  predicate EmptyValue(v: Value)
  {
    match v
    case Str(s) => EmptyString(s)
    case List(xs) => xs == []
  }

  /** `$settings[$key] ?? $default` */
  function Get(settings: map<string, Value>, key: string, default: Value): Value
  {
    if key in settings then settings[key] else default
  }

  /** The elements `foreach` / `in_array` see: a non-array yields none. */
  function Items(v: Value): seq<string>
  {
    match v
    case List(xs) => xs
    case Str(_) => []
  }

  /** String conversion of a value; PHP turns an array into the text "Array". */
  function Text(v: Value): string
  {
    match v
    case Str(s) => s
    case List(_) => "Array"
  }

  /** A `null`-for-falsy integer column: PHP writes `$n ? absint($n) : null`. */
  function Nullable(n: nat): Option<nat>
  {
    if n == 0 then None else Some(n)
  }

  // ---------------------------------------------------------------- trim

  /** The characters PHP's `trim()` strips by default: space, tab, LF, CR, NUL, vertical tab. */
  predicate IsTrimmed(c: char)
  {
    c == ' ' || c == '\t' || c == '\n' || c == '\r' || c == '\0' || c == '\U{B}'
  }

  predicate AllTrimmed(s: string)
  {
    forall k :: 0 <= k < |s| ==> IsTrimmed(s[k])
  }

  /** `ltrim`. */
  function TrimLeft(s: string): string
  {
    if s != [] && IsTrimmed(s[0]) then TrimLeft(s[1..]) else s
  }

  /** `ltrim` drops the leading run of trimmed characters and nothing else. */
  lemma {:induction false} TrimLeftSpec(s: string)
    ensures var r := TrimLeft(s);
      && |r| <= |s| && r == s[|s| - |r|..]
      && (r == [] || !IsTrimmed(r[0]))
      && AllTrimmed(s[..|s| - |r|])
  {
    if s != [] && IsTrimmed(s[0]) {
      TrimLeftSpec(s[1..]);
      var r := TrimLeft(s);
      assert s[..|s| - |r|] == [s[0]] + s[1..][..|s| - 1 - |r|];
    }
  }

  /** `rtrim`. */
  function TrimRight(s: string): string
  {
    if s != [] && IsTrimmed(s[|s| - 1]) then TrimRight(s[..|s| - 1]) else s
  }

  /** `rtrim` drops the trailing run of trimmed characters and nothing else. */
  lemma {:induction false} TrimRightSpec(s: string)
    ensures var r := TrimRight(s);
      && |r| <= |s| && r == s[..|r|]
      && (r == [] || !IsTrimmed(r[|r| - 1]))
      && AllTrimmed(s[|r|..])
  {
    if s != [] && IsTrimmed(s[|s| - 1]) {
      var s' := s[..|s| - 1];
      TrimRightSpec(s');
      var r := TrimRight(s);
      assert s[|r|..] == s'[|r|..] + [s[|s| - 1]];
    }
  }

  /** PHP `trim()`. */
  function Trim(s: string): string
  {
    TrimRight(TrimLeft(s))
  }

  lemma {:induction false} TrimLeftPadded(w: string, s: string)
    requires AllTrimmed(w)
    ensures TrimLeft(w + s) == TrimLeft(s)
  {
    if w != [] {
      assert (w + s)[1..] == w[1..] + s;
      TrimLeftPadded(w[1..], s);
    } else {
      assert w + s == s;
    }
  }

  lemma {:induction false} TrimRightPadded(s: string, w: string)
    requires AllTrimmed(w)
    ensures TrimRight(s + w) == TrimRight(s)
  {
    if w != [] {
      var w' := w[..|w| - 1];
      assert (s + w)[..|s + w| - 1] == s + w';
      TrimRightPadded(s, w');
    } else {
      assert s + w == s;
    }
  }

  /** Left-trimming a concatenation whose left part keeps a non-blank character. */
  lemma {:induction false} TrimLeftConcat(a: string, b: string)
    ensures TrimLeft(a) != [] ==> TrimLeft(a + b) == TrimLeft(a) + b
    ensures TrimLeft(a) == [] ==> TrimLeft(a + b) == TrimLeft(b)
  {
    if a != [] && IsTrimmed(a[0]) {
      assert (a + b)[1..] == a[1..] + b;
      TrimLeftConcat(a[1..], b);
    } else if a == [] {
      assert a + b == b;
    }
  }

  /** `trim` keeps a middle part of its input: the result neither starts nor ends with a trim
      character, and what it dropped on either side is all whitespace. */
  lemma {:induction false} TrimSpec(s: string)
    ensures var r := Trim(s);
      && (r == [] || (!IsTrimmed(r[0]) && !IsTrimmed(r[|r| - 1])))
      && exists w1, w2 :: AllTrimmed(w1) && AllTrimmed(w2) && s == w1 + r + w2
  {
    TrimEnds(s);
    TrimPadding(s);
  }

  lemma {:induction false} TrimEnds(s: string)
    ensures var r := Trim(s);
      r == [] || (!IsTrimmed(r[0]) && !IsTrimmed(r[|r| - 1]))
  {
    var l := TrimLeft(s);
    var r := TrimRight(l);
    TrimLeftSpec(s);
    TrimRightSpec(l);
    if r != [] {
      assert r[0] == l[0];
    }
  }

  lemma {:induction false} TrimPadding(s: string)
    ensures exists w1, w2 :: AllTrimmed(w1) && AllTrimmed(w2) && s == w1 + Trim(s) + w2
  {
    var l := TrimLeft(s);
    var r := TrimRight(l);
    TrimLeftSpec(s);
    TrimRightSpec(l);
    var w1 := s[..|s| - |l|];
    var w2 := l[|r|..];
    assert l == r + w2;
    assert s == w1 + r + w2;
  }

  /** Surrounding whitespace never changes the result of `trim`. */
  lemma TrimIgnoresPadding(w1: string, s: string, w2: string)
    requires AllTrimmed(w1) && AllTrimmed(w2)
    ensures Trim(w1 + s + w2) == Trim(s)
  {
    assert w1 + s + w2 == w1 + (s + w2);
    TrimLeftPadded(w1, s + w2);
    TrimLeftConcat(s, w2);
    if TrimLeft(s) != [] {
      TrimRightPadded(TrimLeft(s), w2);
    } else {
      TrimLeftSpec(w2);
    }
  }

  // ---------------------------------------------------------------- strtoupper

  /** `strtoupper` on one character: ASCII a-z only, as PHP 8 does. */
  function UpperChar(c: char): char
  {
    if 'a' <= c <= 'z' then (c as int - 32) as char else c
  }

  /** `strtoupper`. */
  function Upper(s: string): string
  {
    if s == [] then [] else [UpperChar(s[0])] + Upper(s[1..])
  }

  /** `strtoupper` maps each character and keeps the length. */
  lemma {:induction false} UpperSpec(s: string)
    ensures |Upper(s)| == |s|
    ensures forall k :: 0 <= k < |s| ==> Upper(s)[k] == UpperChar(s[k])
  {
    if s != [] {
      UpperSpec(s[1..]);
    }
  }

  lemma UpperIdempotent(s: string)
    ensures Upper(Upper(s)) == Upper(s)
  {
  }

  lemma {:induction false} UpperConcat(a: string, b: string)
    ensures Upper(a + b) == Upper(a) + Upper(b)
  {
    if a == [] {
      assert a + b == b;
    } else {
      assert (a + b)[1..] == a[1..] + b;
      UpperConcat(a[1..], b);
    }
  }

  /** Upper-casing neither creates nor removes a trimmed character. */
  lemma {:induction false} UpperTrimLeft(s: string)
    ensures Upper(TrimLeft(s)) == TrimLeft(Upper(s))
  {
    if s != [] {
      assert Upper(s)[1..] == Upper(s[1..]);
      if IsTrimmed(s[0]) {
        UpperTrimLeft(s[1..]);
      }
    }
  }

  lemma {:induction false} UpperTrimRight(s: string)
    ensures Upper(TrimRight(s)) == TrimRight(Upper(s))
  {
    if s != [] {
      var s' := s[..|s| - 1];
      var c := s[|s| - 1];
      assert s == s' + [c];
      UpperConcat(s', [c]);
      UpperSpec(s');
      var u := Upper(s);
      assert u == Upper(s') + [UpperChar(c)];
      assert u[..|u| - 1] == Upper(s');
      if IsTrimmed(c) {
        UpperTrimRight(s');
      }
    }
  }

  lemma UpperTrim(s: string)
    ensures Upper(Trim(s)) == Trim(Upper(s))
  {
    UpperTrimLeft(s);
    UpperTrimRight(TrimLeft(s));
  }

  lemma TrimIdempotent(s: string)
    ensures Trim(Trim(s)) == Trim(s)
  {
    var l := TrimLeft(s);
    var r := TrimRight(l);
    TrimLeftSpec(s);
    TrimRightSpec(l);
    assert TrimLeft(r) == r;
  }

  // ---------------------------------------------------------------- explode / implode

  /** `explode(',', $s)[0]`: everything before the first comma. */
  function FirstEntry(s: string): (r: string)
    ensures |r| <= |s| && r == s[..|r|]
    ensures ',' !in r
    ensures r == s || s[|r|] == ','
  {
    if s == [] || s[0] == ',' then [] else [s[0]] + FirstEntry(s[1..])
  }

  /** `implode($sep, $xs)`. */
  function Join(xs: seq<string>, sep: string): string
  {
    if xs == [] then "" else if |xs| == 1 then xs[0] else xs[0] + sep + Join(xs[1..], sep)
  }

  // ---------------------------------------------------------------- array_filter

  /** The elements of `s` that satisfy `keep`, in order (`array_filter`, or the rows a
      `DELETE ... WHERE not keep` leaves). */
  function Filter<T>(s: seq<T>, keep: T -> bool): (r: seq<T>)
    ensures |r| <= |s|
  {
    if s == [] then []
    else (if keep(s[0]) then [s[0]] else []) + Filter(s[1..], keep)
  }

  /** `Filter` holds exactly the input's elements that satisfy the predicate. */
  lemma {:induction false} FilterSpec<T(!new)>(s: seq<T>, keep: T -> bool)
    ensures forall x :: x in Filter(s, keep) <==> x in s && keep(x)
  {
    if s != [] {
      FilterSpec(s[1..], keep);
      assert s == [s[0]] + s[1..];
    }
  }

  lemma {:induction false} FilterKeepsAll<T(!new)>(s: seq<T>, keep: T -> bool)
    requires forall k :: 0 <= k < |s| ==> keep(s[k])
    ensures Filter(s, keep) == s
  {
    if s != [] {
      FilterKeepsAll(s[1..], keep);
    }
  }

  /** A relation that holds between every earlier and later element still holds after
      filtering (used for increasing ids and distinct hashes). */
  lemma {:induction false} FilterPairwise<T(!new)>(s: seq<T>, keep: T -> bool, rel: (T, T) -> bool)
    requires forall i, j :: 0 <= i < j < |s| ==> rel(s[i], s[j])
    ensures forall i, j :: 0 <= i < j < |Filter(s, keep)| ==> rel(Filter(s, keep)[i], Filter(s, keep)[j])
  {
    if s != [] {
      var tail := s[1..];
      FilterPairwise(tail, keep, rel);
      FilterSpec(tail, keep);
      var rest := Filter(tail, keep);
      var head := if keep(s[0]) then [s[0]] else [];
      var r := head + rest;
      assert Filter(s, keep) == r;
      forall i, j | 0 <= i < j < |r|
        ensures rel(r[i], r[j])
      {
        if i < |head| {
          assert r[i] == s[0];
          assert r[j] == rest[j - |head|];
          assert r[j] in tail;
          var m :| 0 <= m < |tail| && tail[m] == r[j];
          assert s[m + 1] == r[j];
          assert rel(s[0], s[m + 1]);
        } else {
          var a, b := i - |head|, j - |head|;
          assert 0 <= a < b < |rest|;
          assert r[i] == rest[a] && r[j] == rest[b];
          assert rel(rest[a], rest[b]);
        }
      }
    }
  }

  lemma {:induction false} FilterConcat<T>(a: seq<T>, b: seq<T>, keep: T -> bool)
    ensures Filter(a + b, keep) == Filter(a, keep) + Filter(b, keep)
  {
    if a == [] {
      assert a + b == b;
    } else {
      var head := if keep(a[0]) then [a[0]] else [];
      assert (a + b)[0] == a[0] && (a + b)[1..] == a[1..] + b;
      assert Filter(a + b, keep) == head + Filter(a[1..] + b, keep);
      FilterConcat(a[1..], b, keep);
      assert Filter(a, keep) == head + Filter(a[1..], keep);
    }
  }
}
