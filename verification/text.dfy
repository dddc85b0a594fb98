/** Optional values, used for lookups that may miss and parses that may fail. */
module Maybe {
  datatype Option<+T> = None | Some(value: T)
}

/**
 * The string operations the bank server and the ATM client rely on:
 * Python's `str.isalpha`/`str.isdigit` (ASCII only), `str.lower`,
 * `str.replace(c, "")`, `str.strip` as `float()` applies it, and
 * `str.split(sep)` with its inverse `sep.join(parts)`.
 */
module Text {

  predicate IsDigit(c: char) { '0' <= c <= '9' }

  predicate IsAlpha(c: char) { 'a' <= c <= 'z' || 'A' <= c <= 'Z' }

  /** Whitespace that `float()` strips from both ends of its argument. */
  predicate IsSpace(c: char) {
    c == ' ' || c == '\t' || c == '\n' || c == '\r' || c == '\U{B}' || c == '\U{C}' ||
    '\U{1C}' <= c <= '\U{1F}'
  }

  /** Every character is a digit (true of the empty string). */
  predicate AllDigits(s: string) {
    forall i :: 0 <= i < |s| ==> IsDigit(s[i])
  }

  /** `s.isdigit()`: non-empty and all digits. */
  predicate IsDigitStr(s: string) {
    |s| > 0 && AllDigits(s)
  }

  /** `s.isalpha()`: non-empty and all letters. */
  predicate IsAlphaStr(s: string) {
    |s| > 0 && forall i :: 0 <= i < |s| ==> IsAlpha(s[i])
  }

  function ToLower(c: char): char {
    if 'A' <= c <= 'Z' then (c as int + 32) as char else c
  }

  /** `s.lower()` on ASCII letters. */
  function Lower(s: string): (r: string)
    ensures |r| == |s|
    ensures forall i :: 0 <= i < |s| ==> r[i] == ToLower(s[i])
  {
    seq(|s|, i requires 0 <= i < |s| => ToLower(s[i]))
  }

  /** `s.replace(c, "")` for a one-character `c`. */
  function Without(s: string, c: char): (r: string)
    ensures c !in r
    ensures forall x :: x != c ==> (x in r <==> x in s)
    ensures |r| <= |s|
    ensures multiset(r) == multiset(s)[c := 0]
  {
    if |s| == 0 then ""
    else
      assert s == [s[0]] + s[1..];
      if s[0] == c then Without(s[1..], c)
      else [s[0]] + Without(s[1..], c)
  }

  /** Removal keeps the order: it works piece by piece, on each character alone. */
  lemma {:induction false} WithoutAppend(a: string, b: string, c: char)
    ensures Without(a + b, c) == Without(a, c) + Without(b, c)
    decreases |a|
  {
    if |a| == 0 {
      assert a + b == b;
    } else {
      assert (a + b)[0] == a[0];
      assert (a + b)[1..] == a[1..] + b;
      WithoutAppend(a[1..], b, c);
      if a[0] != c {
        assert Without(a + b, c) == [a[0]] + (Without(a[1..], c) + Without(b, c));
      }
    }
  }

  /** A single character is dropped exactly when it is `c`. */
  lemma WithoutSingle(x: char, c: char)
    ensures Without([x], c) == if x == c then "" else [x]
  {
    assert [x][1..] == "";
  }

  /** Lower-casing distributes over concatenation. */
  lemma LowerAppend(a: string, b: string)
    ensures Lower(a + b) == Lower(a) + Lower(b)
  {
  }

  /** Lower-casing neither creates nor removes a character that is not a letter. */
  lemma LowerKeepsOther(s: string, x: char)
    requires !('A' <= x <= 'Z') && !('a' <= x <= 'z')
    ensures x in Lower(s) <==> x in s
  {
    if x in Lower(s) {
      var i :| 0 <= i < |s| && Lower(s)[i] == x;
      assert s[i] == x;
    }
    if x in s {
      var i :| 0 <= i < |s| && s[i] == x;
      assert Lower(s)[i] == x;
    }
  }

  /** Drops leading whitespace. */
  function TrimLeft(s: string): string {
    if |s| > 0 && IsSpace(s[0]) then TrimLeft(s[1..]) else s
  }

  /** Drops trailing whitespace. */
  function TrimRight(s: string): string {
    if |s| > 0 && IsSpace(s[|s| - 1]) then TrimRight(s[..|s| - 1]) else s
  }

  function Strip(s: string): string {
    TrimRight(TrimLeft(s))
  }

  /** `TrimLeft` removes a prefix made only of whitespace, and no more. */
  lemma {:induction false} TrimLeftCuts(s: string)
    ensures var r := TrimLeft(s);
            |r| <= |s| && r == s[|s| - |r|..] &&
            (forall i :: 0 <= i < |s| - |r| ==> IsSpace(s[i])) &&
            (|r| > 0 ==> !IsSpace(r[0]))
  {
    if |s| > 0 && IsSpace(s[0]) {
      TrimLeftCuts(s[1..]);
    }
  }

  /** `TrimRight` removes a suffix made only of whitespace, and no more. */
  lemma {:induction false} TrimRightCuts(s: string)
    ensures var r := TrimRight(s);
            |r| <= |s| && r == s[..|r|] &&
            (forall i :: |r| <= i < |s| ==> IsSpace(s[i])) &&
            (|r| > 0 ==> !IsSpace(r[|r| - 1]))
  {
    if |s| > 0 && IsSpace(s[|s| - 1]) {
      TrimRightCuts(s[..|s| - 1]);
    }
  }

  /** A string that neither starts nor ends with whitespace is its own strip. */
  lemma StripNoSpace(s: string)
    requires |s| > 0 ==> !IsSpace(s[0]) && !IsSpace(s[|s| - 1])
    ensures Strip(s) == s
  {
  }

  /** Every character of `s` either survives in `Strip(s)` or is whitespace. */
  lemma StripKeeps(s: string, i: nat)
    requires i < |s| && !IsSpace(s[i])
    ensures s[i] in Strip(s)
  {
    var l := TrimLeft(s);
    TrimLeftCuts(s);
    var k := i - (|s| - |l|);
    assert 0 <= k < |l| && l[k] == s[i];
    var r := TrimRight(l);
    TrimRightCuts(l);
    assert k < |r|;
    assert r[k] == s[i];
  }

  /** Index of the first `c` in `s`, or `|s|` when there is none. */
  function IndexOf(s: string, c: char): (k: nat)
    ensures k <= |s|
  {
    if |s| == 0 then 0
    else if s[0] == c then 0
    else 1 + IndexOf(s[1..], c)
  }

  /** `IndexOf` finds `c` when it reports a position, and no `c` comes before it. */
  lemma {:induction false} IndexOfFinds(s: string, c: char)
    ensures var k := IndexOf(s, c);
            (k < |s| ==> s[k] == c) && (forall i :: 0 <= i < k ==> s[i] != c)
  {
    if |s| > 0 && s[0] != c {
      IndexOfFinds(s[1..], c);
    }
  }

  lemma {:induction false} IndexOfAfter(x: string, c: char, y: string)
    requires c !in x
    ensures IndexOf(x + [c] + y, c) == |x|
    decreases |x|
  {
    if |x| > 0 {
      assert (x + [c] + y)[1..] == x[1..] + [c] + y;
      IndexOfAfter(x[1..], c, y);
    }
  }

  /**
   * `s.split(sep)`: cut at every occurrence of `sep`, scanning left to
   * right without overlaps. Like Python, the result is never empty.
   */
  function Split(s: string, sep: string): (r: seq<string>)
    requires |sep| > 0
    ensures |r| >= 1
    decreases |s|
  {
    if |s| < |sep| then [s]
    else if s[..|sep|] == sep then [""] + Split(s[|sep|..], sep)
    else
      var rest := Split(s[1..], sep);
      [[s[0]] + rest[0]] + rest[1..]
  }

  /** Split on a one-character separator: no piece holds the separator, and pieces only hold characters of `s`. */
  lemma {:induction false} SplitPieces(s: string, sep: string)
    requires |sep| == 1
    ensures forall i :: 0 <= i < |Split(s, sep)| ==>
              sep[0] !in Split(s, sep)[i] && forall c :: c in Split(s, sep)[i] ==> c in s
    decreases |s|
  {
    var r := Split(s, sep);
    if |s| < |sep| {
    } else {
      var tail := s[1..];
      var rest := Split(tail, sep);
      SplitPieces(tail, sep);
      assert forall c :: c in tail ==> c in s;
      if s[..|sep|] == sep {
        assert r == [""] + rest;
        forall i | 0 <= i < |r|
          ensures sep[0] !in r[i] && forall c :: c in r[i] ==> c in s
        {
          if i > 0 {
            assert r[i] == rest[i - 1];
          }
        }
      } else {
        assert s[0] != sep[0] by { assert s[..1][0] == s[0]; }
        assert r == [[s[0]] + rest[0]] + rest[1..];
        forall i | 0 <= i < |r|
          ensures sep[0] !in r[i] && forall c :: c in r[i] ==> c in s
        {
          if i == 0 {
            assert r[0] == [s[0]] + rest[0];
          } else {
            assert r[i] == rest[i];
          }
        }
      }
    }
  }

  /** `sep.join(parts)`. */
  function Join(parts: seq<string>, sep: string): string
    requires |parts| >= 1
  {
    if |parts| == 1 then parts[0] else parts[0] + sep + Join(parts[1..], sep)
  }

  lemma {:induction false} JoinCons(c: char, parts: seq<string>, sep: string)
    requires |parts| >= 1
    ensures Join([[c] + parts[0]] + parts[1..], sep) == [c] + Join(parts, sep)
  {
    var q := [[c] + parts[0]] + parts[1..];
    assert q[1..] == parts[1..];
  }

  /** Joining the pieces of a split gives back the original string. */
  lemma {:induction false} JoinSplit(s: string, sep: string)
    requires |sep| > 0
    ensures Join(Split(s, sep), sep) == s
    decreases |s|
  {
    if |s| < |sep| {
    } else if s[..|sep|] == sep {
      var tail := s[|sep|..];
      var r := Split(tail, sep);
      JoinSplit(tail, sep);
      var q := [""] + r;
      assert Split(s, sep) == q;
      assert q[0] == "" && q[1..] == r;
      assert Join(q, sep) == "" + sep + Join(r, sep);
      assert s == sep + tail;
    } else {
      var rest := Split(s[1..], sep);
      JoinSplit(s[1..], sep);
      assert Split(s, sep) == [[s[0]] + rest[0]] + rest[1..];
      JoinCons(s[0], rest, sep);
      assert s == [s[0]] + s[1..];
    }
  }

  /** A piece free of the separator's first character splits to itself. */
  lemma {:induction false} SplitPlain(p: string, sep: string)
    requires |sep| > 0 && sep[0] !in p
    ensures Split(p, sep) == [p]
    decreases |p|
  {
    if |p| >= |sep| {
      assert p[..|sep|][0] == p[0] != sep[0];
      SplitPlain(p[1..], sep);
      assert [p[0]] + p[1..] == p;
    }
  }

  /** A leading piece free of the separator's first character is cut off whole. */
  lemma {:induction false} SplitFront(p: string, sep: string, rest: string)
    requires |sep| > 0 && sep[0] !in p
    ensures Split(p + sep + rest, sep) == [p] + Split(rest, sep)
    decreases |p|
  {
    var s := p + sep + rest;
    if |p| == 0 {
      assert s == sep + rest;
      assert s[..|sep|] == sep && s[|sep|..] == rest;
    } else {
      assert s[..|sep|][0] == p[0] != sep[0];
      assert s[1..] == p[1..] + sep + rest;
      SplitFront(p[1..], sep, rest);
      assert [p[0]] + p[1..] == p;
    }
  }

  /**
   * Splitting a join gives back the parts, provided no part contains the
   * separator's first character (so no separator can straddle a boundary).
   */
  lemma {:induction false} SplitJoin(parts: seq<string>, sep: string)
    requires |parts| >= 1 && |sep| > 0
    requires forall i :: 0 <= i < |parts| ==> sep[0] !in parts[i]
    ensures Split(Join(parts, sep), sep) == parts
    decreases |parts|
  {
    if |parts| == 1 {
      SplitPlain(parts[0], sep);
    } else {
      SplitJoin(parts[1..], sep);
      SplitFront(parts[0], sep, Join(parts[1..], sep));
      assert parts == [parts[0]] + parts[1..];
    }
  }
}
