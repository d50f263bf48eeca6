/** Shared vocabulary of the model: optional values, JSON values, the
    JavaScript string operations the sources rely on, and order-preserving
    filtering of sequences. */
module Common {

  datatype Option<+T> = None | Some(value: T)

  /** A JSON value as `JSON.parse` produces it. Numbers are integers in this
      model; object member order is not kept. */
  datatype Json =
    | JNull
    | JBool(b: bool)
    | JNumber(n: int)
    | JString(s: string)
    | JArray(items: seq<Json>)
    | JObject(members: map<string, Json>)

  /** `JSON.stringify(value, null, indent)` and `JSON.parse(text)`, left
      uninterpreted: `parse` yields `None` where `JSON.parse` throws. */
  datatype JsonCodec = JsonCodec(stringify: (Json, nat) -> string, parse: string -> Option<Json>)

  /** What every use of the codec relies on: parsing what was printed gives
      the value back, and printing never yields the empty text. */
  ghost predicate RoundTrips(codec: JsonCodec)
  {
    forall v: Json, indent: nat {:trigger codec.stringify(v, indent)} ::
      codec.stringify(v, indent) != "" && codec.parse(codec.stringify(v, indent)) == Some(v)
  }

  /** An error value as JavaScript code inspects it: `error.name` and
      `error.message`. */
  datatype JsError = JsError(name: string, message: string)

  // ---------------------------------------------------------------------------
  // Substrings
  // ---------------------------------------------------------------------------

  predicate OccursAt(s: string, pat: string, j: int)
  {
    0 <= j && j + |pat| <= |s| && s[j..j + |pat|] == pat
  }

  /** The first occurrence of `pat` in `s` at or after position `i`. */
  function IndexFrom(s: string, pat: string, i: nat): (r: Option<nat>)
    requires i <= |s|
    decreases |s| - i
    ensures r.Some? ==> i <= r.value && OccursAt(s, pat, r.value)
    ensures r.Some? ==> forall j :: i <= j < r.value ==> !OccursAt(s, pat, j)
    ensures r.None? ==> forall j :: i <= j ==> !OccursAt(s, pat, j)
  {
    if i + |pat| > |s| then None
    else if s[i..i + |pat|] == pat then Some(i)
    else IndexFrom(s, pat, i + 1)
  }

  /** `s.indexOf(pat)`, with `None` for -1. */
  function IndexOf(s: string, pat: string): (r: Option<nat>)
    ensures r.Some? ==> OccursAt(s, pat, r.value) && forall j :: 0 <= j < r.value ==> !OccursAt(s, pat, j)
    ensures r.None? ==> forall j :: !OccursAt(s, pat, j)
  {
    IndexFrom(s, pat, 0)
  }

  /** `s.includes(pat)`, also an unanchored regular expression test for a
      literal word. */
  predicate Contains(s: string, pat: string)
  {
    IndexOf(s, pat).Some?
  }

  lemma OccursInMiddle(a: string, pat: string, b: string)
    ensures OccursAt(a + pat + b, pat, |a|) && Contains(a + pat + b, pat)
  {
    var s := a + pat + b;
    assert s[|a|..|a| + |pat|] == pat;
    assert OccursAt(s, pat, |a|);
  }

  /** A text lacking one of the pattern's characters does not contain it. */
  lemma MissingChar(s: string, pat: string, c: char)
    requires c in pat && c !in s
    ensures !Contains(s, pat)
  {
  }

  /** A character in front of a text cannot start an occurrence of a
      pattern that begins with another character. */
  lemma ContainsAfterChar(c: char, s: string, pat: string)
    requires pat != [] && pat[0] != c
    ensures Contains([c] + s, pat) <==> Contains(s, pat)
  {
    var t := [c] + s;
    if Contains(s, pat) {
      var j := IndexOf(s, pat).value;
      assert t[j + 1..j + 1 + |pat|] == s[j..j + |pat|];
      assert OccursAt(t, pat, j + 1);
    }
    if Contains(t, pat) {
      var j := IndexOf(t, pat).value;
      assert t[j..j + |pat|][0] == t[j];
      assert t[j] == pat[0] && t[0] == c;
      assert j >= 1;
      assert s[j - 1..j - 1 + |pat|] == t[j..j + |pat|];
      assert OccursAt(s, pat, j - 1);
    }
  }

  predicate EndsWith(s: string, suffix: string)
  {
    |suffix| <= |s| && s[|s| - |suffix|..] == suffix
  }

  /** `s.replace(pat, rep)` with a string pattern: only the first occurrence
      is replaced. */
  function ReplaceFirst(s: string, pat: string, rep: string): (r: string)
    ensures IndexOf(s, pat).None? ==> r == s
    ensures IndexOf(s, pat).Some? ==>
      var i := IndexOf(s, pat).value; r == s[..i] + rep + s[i + |pat|..]
  {
    match IndexOf(s, pat)
    case None => s
    case Some(i) => s[..i] + rep + s[i + |pat|..]
  }

  // ---------------------------------------------------------------------------
  // Case and white space
  // ---------------------------------------------------------------------------

  function LowerChar(c: char): char
  {
    if 'A' <= c <= 'Z' then (c as int + 32) as char else c
  }

  /** `s.toLowerCase()` on the ASCII letters. */
  function Lower(s: string): (r: string)
    ensures |r| == |s| && forall i :: 0 <= i < |s| ==> r[i] == LowerChar(s[i])
  {
    seq(|s|, i requires 0 <= i < |s| => LowerChar(s[i]))
  }

  /** Lowering a text without capitals leaves it as it is. */
  lemma LowerUnchanged(s: string)
    requires forall i :: 0 <= i < |s| ==> !('A' <= s[i] <= 'Z')
    ensures Lower(s) == s
  {
    var r := Lower(s);
    assert forall i :: 0 <= i < |s| ==> r[i] == s[i];
  }

  /** Lowering works character by character, so it distributes over
      concatenation. */
  lemma LowerConcat(a: string, b: string)
    ensures Lower(a + b) == Lower(a) + Lower(b)
  {
    var r, t := Lower(a + b), Lower(a) + Lower(b);
    assert forall i :: 0 <= i < |a + b| ==> r[i] == t[i];
  }

  /** Lowering twice is lowering once. */
  lemma LowerIdempotent(s: string)
    ensures Lower(Lower(s)) == Lower(s)
  {
    var r, t := Lower(Lower(s)), Lower(s);
    assert forall i :: 0 <= i < |s| ==> r[i] == t[i];
  }

  /** The characters `String.prototype.trim` removes: ECMAScript WhiteSpace
      and LineTerminator. */
  predicate IsSpace(c: char)
  {
    c == ' ' || c == '\t' || c == '\n' || c == '\r' || c == '\U{000B}' || c == '\U{000C}'
    || c == '\U{00A0}' || c == '\U{1680}' || ('\U{2000}' <= c <= '\U{200A}')
    || c == '\U{2028}' || c == '\U{2029}' || c == '\U{202F}' || c == '\U{205F}'
    || c == '\U{3000}' || c == '\U{FEFF}'
  }

  /** The characters of `s` from `lo` up to `hi` are all white space. */
  predicate SpaceBetween(s: string, lo: int, hi: int)
  {
    forall i :: lo <= i < hi && 0 <= i < |s| ==> IsSpace(s[i])
  }

  /** The number of white space characters `s` starts with. */
  function LeadingSpaces(s: string): (n: nat)
    ensures n <= |s| && SpaceBetween(s, 0, n) && (n == |s| || !IsSpace(s[n]))
  {
    if s == [] || !IsSpace(s[0]) then 0
    else
      var n := LeadingSpaces(s[1..]);
      assert forall i :: 1 <= i < n + 1 ==> s[i] == s[1..][i - 1];
      n + 1
  }

  /** The number of white space characters `s` ends with. */
  function TrailingSpaces(s: string): (n: nat)
    ensures n <= |s| && SpaceBetween(s, |s| - n, |s|) && (n == |s| || !IsSpace(s[|s| - n - 1]))
  {
    if s == [] || !IsSpace(s[|s| - 1]) then 0
    else
      var n := TrailingSpaces(s[..|s| - 1]);
      assert forall i :: 0 <= i < |s| - 1 ==> s[i] == s[..|s| - 1][i];
      n + 1
  }

  /** `s.trim()`: white space goes from both ends and none is left there. */
  function Trim(s: string): (r: string)
    ensures |r| <= |s|
    ensures r == [] || (!IsSpace(r[0]) && !IsSpace(r[|r| - 1]))
  {
    var t := s[LeadingSpaces(s)..];
    t[..|t| - TrailingSpaces(t)]
  }

  /** What trimming drops is white space on either side of a slice of `s`. */
  lemma TrimIsSlice(s: string)
    ensures var i, r := LeadingSpaces(s), Trim(s);
      i + |r| <= |s| && r == s[i..i + |r|] && SpaceBetween(s, 0, i) && SpaceBetween(s, i + |r|, |s|)
  {
    var i := LeadingSpaces(s);
    var t := s[i..];
    var r := Trim(s);
    assert r == s[i..i + |r|];
    forall k | i + |r| <= k < |s|
      ensures IsSpace(s[k])
    {
      assert s[k] == t[k - i];
    }
  }

  // ---------------------------------------------------------------------------
  // Splitting on a separator
  // ---------------------------------------------------------------------------

  /** `s.split(sep)` for a one-character separator: the pieces between
      separators, always at least one. */
  function Split(s: string, sep: char): (r: seq<string>)
    ensures |r| >= 1
    ensures forall k :: 0 <= k < |r| ==> sep !in r[k]
  {
    if s == [] then [""]
    else
      var rest := Split(s[1..], sep);
      if s[0] == sep then [""] + rest else [[s[0]] + rest[0]] + rest[1..]
  }

  /** `parts.join(sep)`. */
  function Join(parts: seq<string>, sep: char): string
    requires |parts| >= 1
  {
    if |parts| == 1 then parts[0] else parts[0] + [sep] + Join(parts[1..], sep)
  }

  /** Splitting loses nothing: joining the pieces gives the text back. */
  lemma {:induction false} JoinSplit(s: string, sep: char)
    ensures Join(Split(s, sep), sep) == s
  {
    if s != [] {
      var rest := Split(s[1..], sep);
      JoinSplit(s[1..], sep);
      if s[0] == sep {
        assert Split(s, sep)[1..] == rest;
      } else {
        var r := Split(s, sep);
        if |rest| == 1 {
          assert r == [[s[0]] + rest[0]];
        } else {
          assert r[1..] == rest[1..];
          assert Join(rest, sep) == rest[0] + [sep] + Join(rest[1..], sep);
        }
      }
    }
  }

  /** The text before the first separator is the first piece. */
  lemma {:induction false} SplitHead(s: string, sep: char)
    ensures sep in s ==> exists i :: 0 <= i < |s| && s[i] == sep && Split(s, sep)[0] == s[..i] && sep !in s[..i]
    ensures sep !in s ==> Split(s, sep) == [s]
  {
    if s != [] {
      SplitHead(s[1..], sep);
      if s[0] != sep && sep in s {
        var i :| 0 <= i < |s[1..]| && s[1..][i] == sep && Split(s[1..], sep)[0] == s[1..][..i] && sep !in s[1..][..i];
        assert s[..i + 1] == [s[0]] + s[1..][..i];
      }
      if sep !in s {
        assert s == [s[0]] + s[1..];
      }
    }
  }

  /** A piece without the separator, then the separator, splits off as the
      first piece. */
  lemma {:induction false} SplitAfterPiece(a: string, b: string, sep: char)
    requires sep !in a
    ensures Split(a + [sep] + b, sep) == [a] + Split(b, sep)
  {
    if a == [] {
      assert a + [sep] + b == [sep] + b;
      assert ([sep] + b)[1..] == b;
    } else {
      SplitAfterPiece(a[1..], b, sep);
      assert (a + [sep] + b)[1..] == a[1..] + [sep] + b;
      assert [a[0]] + a[1..] == a;
    }
  }

  /** Joining pieces that do not contain the separator and splitting again
      gives the pieces back. */
  lemma {:induction false} SplitJoin(parts: seq<string>, sep: char)
    requires |parts| >= 1 && forall k :: 0 <= k < |parts| ==> sep !in parts[k]
    ensures Split(Join(parts, sep), sep) == parts
    decreases |parts|
  {
    if |parts| == 1 {
      SplitHead(parts[0], sep);
    } else {
      SplitJoin(parts[1..], sep);
      SplitAfterPiece(parts[0], Join(parts[1..], sep), sep);
    }
  }

  /** Trimming adds no character. */
  lemma TrimKeepsOut(s: string, c: char)
    requires c !in s
    ensures c !in Trim(s)
  {
    var r := Trim(s);
    var i := LeadingSpaces(s);
    TrimIsSlice(s);
    assert forall m :: 0 <= m < |r| ==> r[m] == s[i + m];
  }

  /** Text without white space at either end is its own trim. */
  lemma TrimUnchanged(s: string)
    requires s == [] || (!IsSpace(s[0]) && !IsSpace(s[|s| - 1]))
    ensures Trim(s) == s
  {
  }

  // ---------------------------------------------------------------------------
  // Decimal numerals
  // ---------------------------------------------------------------------------

  predicate IsDigit(c: char)
  {
    '0' <= c <= '9'
  }

  function DigitValue(c: char): nat
    requires IsDigit(c)
  {
    c as int - '0' as int
  }

  /** The number a string of decimal digits denotes. */
  function DigitsValue(s: string): nat
    requires forall i :: 0 <= i < |s| ==> IsDigit(s[i])
  {
    if s == [] then 0 else DigitsValue(s[..|s| - 1]) * 10 + DigitValue(s[|s| - 1])
  }

  /** `String(n)` for a natural number. */
  function NatToString(n: nat): (r: string)
    ensures |r| >= 1 && forall i :: 0 <= i < |r| ==> IsDigit(r[i])
    ensures |r| > 1 ==> r[0] != '0'
  {
    var d := ['0' + (n % 10) as char];
    if n < 10 then d else NatToString(n / 10) + d
  }

  /** `String(n)` for an integer: a '-' in front of a negative number. */
  function IntToString(n: int): (r: string)
    ensures n >= 0 ==> r == NatToString(n)
    ensures n < 0 ==> r == "-" + NatToString(-n)
  {
    if n >= 0 then NatToString(n) else "-" + NatToString(-n)
  }

  /** The numeral denotes the number it was printed from. */
  lemma {:induction false} NatToStringValue(n: nat)
    ensures DigitsValue(NatToString(n)) == n
  {
    var r := NatToString(n);
    if n >= 10 {
      NatToStringValue(n / 10);
      assert r[..|r| - 1] == NatToString(n / 10);
    }
  }

  // ---------------------------------------------------------------------------
  // Order-preserving filtering (Array.prototype.filter)
  // ---------------------------------------------------------------------------

  function Filter<T(!new)>(keep: T -> bool, s: seq<T>): (r: seq<T>)
    ensures |r| <= |s|
    ensures forall x :: x in r <==> x in s && keep(x)
  {
    if s == [] then [] else (if keep(s[0]) then [s[0]] else []) + Filter(keep, s[1..])
  }

  /** `a` is `b` with some elements removed, the rest in their order. */
  predicate IsSubsequence<T(==)>(a: seq<T>, b: seq<T>)
    decreases |b|
  {
    if a == [] then true
    else if b == [] then false
    else (a[0] == b[0] && IsSubsequence(a[1..], b[1..])) || IsSubsequence(a, b[1..])
  }

  lemma {:induction false} FilterIsSubsequence<T(!new)>(keep: T -> bool, s: seq<T>)
    ensures IsSubsequence(Filter(keep, s), s)
  {
    if s != [] {
      FilterIsSubsequence(keep, s[1..]);
      var r := Filter(keep, s);
      if keep(s[0]) {
        assert r[0] == s[0] && r[1..] == Filter(keep, s[1..]);
      } else {
        assert r == Filter(keep, s[1..]);
      }
    }
  }

  lemma {:induction false} FilterConcat<T(!new)>(keep: T -> bool, a: seq<T>, b: seq<T>)
    ensures Filter(keep, a + b) == Filter(keep, a) + Filter(keep, b)
  {
    if a != [] {
      assert (a + b)[1..] == a[1..] + b;
      FilterConcat(keep, a[1..], b);
    } else {
      assert a + b == b;
    }
  }

  /** Filtering with a predicate that holds of every element keeps all. */
  lemma {:induction false} FilterAll<T(!new)>(keep: T -> bool, s: seq<T>)
    requires forall x :: x in s ==> keep(x)
    ensures Filter(keep, s) == s
  {
    if s != [] {
      FilterAll(keep, s[1..]);
      assert s == [s[0]] + s[1..];
    }
  }

  /** Filtering with a predicate that holds of no element keeps none. */
  lemma {:induction false} FilterNone<T(!new)>(keep: T -> bool, s: seq<T>)
    requires forall x :: x in s ==> !keep(x)
    ensures Filter(keep, s) == []
  {
    if s != [] {
      FilterNone(keep, s[1..]);
    }
  }

  /** Two filters that agree on every element select the same elements. */
  lemma {:induction false} FilterSame<T(!new)>(f: T -> bool, g: T -> bool, s: seq<T>)
    requires forall x :: x in s ==> (f(x) <==> g(x))
    ensures Filter(f, s) == Filter(g, s)
  {
    if s != [] {
      FilterSame(f, g, s[1..]);
    }
  }

  /** Two complementary filters split the elements between them. */
  lemma {:induction false} FilterPartition<T(!new)>(keep: T -> bool, drop: T -> bool, s: seq<T>)
    requires forall x :: x in s ==> (keep(x) <==> !drop(x))
    ensures multiset(Filter(keep, s)) + multiset(Filter(drop, s)) == multiset(s)
  {
    if s != [] {
      var x, tail := s[0], s[1..];
      FilterPartition(keep, drop, tail);
      var kept, dropped := Filter(keep, tail), Filter(drop, tail);
      assert s == [x] + tail;
      if keep(x) {
        assert Filter(keep, s) == [x] + kept;
        assert Filter(drop, s) == dropped;
        MultisetCons(x, kept, dropped, tail);
      } else {
        assert Filter(keep, s) == kept;
        assert Filter(drop, s) == [x] + dropped;
        MultisetCons(x, dropped, kept, tail);
      }
    }
  }

  /** Filtering keeps every copy of a kept element and no copy of another. */
  lemma {:induction false} FilterCount<T(!new)>(keep: T -> bool, s: seq<T>, x: T)
    ensures multiset(Filter(keep, s))[x] == if keep(x) then multiset(s)[x] else 0
  {
    if s != [] {
      FilterCount(keep, s[1..], x);
      assert s == [s[0]] + s[1..];
      assert multiset(s) == multiset{s[0]} + multiset(s[1..]);
      var head := if keep(s[0]) then [s[0]] else [];
      assert Filter(keep, s) == head + Filter(keep, s[1..]);
      assert multiset(Filter(keep, s)) == multiset(head) + multiset(Filter(keep, s[1..]));
    }
  }

  lemma FilterCounts<T(!new)>(keep: T -> bool, s: seq<T>)
    ensures forall x :: multiset(Filter(keep, s))[x] == if keep(x) then multiset(s)[x] else 0
  {
    forall x
      ensures multiset(Filter(keep, s))[x] == if keep(x) then multiset(s)[x] else 0
    {
      FilterCount(keep, s, x);
    }
  }

  /** Three filters of which exactly one holds of each element split the
      elements between them. */
  lemma FilterPartition3<T(!new)>(a: T -> bool, b: T -> bool, c: T -> bool, s: seq<T>)
    requires forall x :: x in s ==> (a(x) || b(x) || c(x)) && !(a(x) && b(x)) && !(a(x) && c(x)) && !(b(x) && c(x))
    ensures multiset(Filter(a, s)) + multiset(Filter(b, s)) + multiset(Filter(c, s)) == multiset(s)
  {
    var m := multiset(Filter(a, s)) + multiset(Filter(b, s)) + multiset(Filter(c, s));
    forall x
      ensures m[x] == multiset(s)[x]
    {
      FilterCount(a, s, x);
      FilterCount(b, s, x);
      FilterCount(c, s, x);
    }
  }

  lemma MultisetCons<T>(x: T, a: seq<T>, b: seq<T>, s: seq<T>)
    requires multiset(a) + multiset(b) == multiset(s)
    ensures multiset([x] + a) + multiset(b) == multiset([x] + s)
    ensures multiset(b) + multiset([x] + a) == multiset([x] + s)
  {
    assert multiset([x] + a) == multiset{x} + multiset(a);
    assert multiset([x] + s) == multiset{x} + multiset(s);
  }

  /** Sequences that are permutations of each other have the same members. */
  lemma SameMembers<T>(a: seq<T>, b: seq<T>)
    requires multiset(a) == multiset(b)
    ensures forall x :: x in a <==> x in b
  {
    forall x
      ensures x in a <==> x in b
    {
      assert x in a <==> x in multiset(a);
      assert x in b <==> x in multiset(b);
    }
  }
}
