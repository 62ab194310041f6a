/**
 * The pieces of the Java class library that the two peers lean on, written out
 * over `seq<char>`: `String.trim`, the three `String.split` behaviours the code
 * uses (limit 0, positive limit, whitespace runs), `Integer.parseInt` /
 * `Long.parseLong`, `Integer.toString` / `Long.toString`, ASCII case folding for
 * `equalsIgnoreCase` / `toLowerCase`, `startsWith` and `String.compareTo`.
 * A `null` return or a thrown NumberFormatException becomes `None`.
 */
module JavaText {

  datatype Option<T> = None | Some(value: T)

  /** A Java `int` and a Java `long`. */
  type Int32 = x: int | -0x8000_0000 <= x <= 0x7fff_ffff
  type Int64 = x: int | -0x8000_0000_0000_0000 <= x <= 0x7fff_ffff_ffff_ffff

  // ---------------------------------------------------------------- trim

  /** `String.trim` removes every leading and trailing char whose code is at most U+0020. */
  predicate IsTrimmed(c: char) { c <= ' ' }

  function TrimLeft(s: string): (r: string)
    ensures |r| <= |s|
    ensures r == [] || !IsTrimmed(r[0])
  {
    if s != [] && IsTrimmed(s[0]) then TrimLeft(s[1..]) else s
  }

  /** What `TrimLeft` keeps is the end of its input, char for char. */
  lemma {:induction false} TrimLeftKeepsEnd(s: string)
    ensures forall k :: 0 <= k < |TrimLeft(s)| ==> TrimLeft(s)[k] == s[|s| - |TrimLeft(s)| + k]
    decreases |s|
  {
    if s != [] && IsTrimmed(s[0]) {
      TrimLeftKeepsEnd(s[1..]);
      forall k | 0 <= k < |TrimLeft(s)|
        ensures TrimLeft(s)[k] == s[|s| - |TrimLeft(s)| + k]
      {
        assert s[1..][|s| - 1 - |TrimLeft(s)| + k] == s[|s| - |TrimLeft(s)| + k];
      }
    }
  }

  function TrimRight(s: string): (r: string)
    ensures |r| <= |s| && r == s[..|r|]
    ensures r == [] || !IsTrimmed(r[|r| - 1])
  {
    if s != [] && IsTrimmed(s[|s| - 1]) then TrimRight(s[..|s| - 1]) else s
  }

  function Trim(s: string): string
  {
    TrimRight(TrimLeft(s))
  }

  /** A string that neither starts nor ends with a trimmed char is left alone by `trim`. */
  lemma TrimUnchanged(s: string)
    requires s == [] || (!IsTrimmed(s[0]) && !IsTrimmed(s[|s| - 1]))
    ensures Trim(s) == s
  {
  }

  /** Every char `TrimLeft` removes from the front is a trimmed char. */
  lemma {:induction false} TrimLeftDropsTrimmed(s: string)
    ensures forall k :: 0 <= k < |s| - |TrimLeft(s)| ==> IsTrimmed(s[k])
    decreases |s|
  {
    if s != [] && IsTrimmed(s[0]) {
      TrimLeftDropsTrimmed(s[1..]);
      forall k | 1 <= k < |s| - |TrimLeft(s)|
        ensures IsTrimmed(s[k])
      {
        assert s[k] == s[1..][k - 1];
      }
    }
  }

  /** Every char `TrimRight` removes from the back is a trimmed char. */
  lemma {:induction false} TrimRightDropsTrimmed(s: string)
    ensures forall k :: |TrimRight(s)| <= k < |s| ==> IsTrimmed(s[k])
    decreases |s|
  {
    if s != [] && IsTrimmed(s[|s| - 1]) {
      TrimRightDropsTrimmed(s[..|s| - 1]);
      forall k | |TrimRight(s)| <= k < |s| - 1
        ensures IsTrimmed(s[k])
      {
        assert s[k] == s[..|s| - 1][k];
      }
    }
  }

  /** The result of `trim` neither starts nor ends with a trimmed char. */
  lemma TrimEnds(s: string)
    ensures Trim(s) == [] || (!IsTrimmed(Trim(s)[0]) && !IsTrimmed(Trim(s)[|Trim(s)| - 1]))
  {
    assert Trim(s) == [] || Trim(s)[0] == TrimLeft(s)[0];
  }

  /** Where `trim`'s result sits in its input: between positions `i` and `j`, with only
      trimmed chars before `i` and from `j` on. */
  lemma TrimSpan(s: string) returns (i: nat, j: nat)
    ensures i <= j <= |s| && Trim(s) == s[i..j]
    ensures forall k :: 0 <= k < i ==> IsTrimmed(s[k])
    ensures forall k :: j <= k < |s| ==> IsTrimmed(s[k])
  {
    i := |s| - |TrimLeft(s)|;
    j := i + |Trim(s)|;
    TrimSlice(s);
    TrimLeftDropsTrimmed(s);
    TrimDropsTail(s);
  }

  lemma TrimSlice(s: string)
    ensures Trim(s) == s[|s| - |TrimLeft(s)|..|s| - |TrimLeft(s)| + |Trim(s)|]
  {
    var l := TrimLeft(s);
    var r := TrimRight(l);
    var i := |s| - |l|;
    TrimLeftKeepsEnd(s);
    forall k | 0 <= k < |r|
      ensures r[k] == s[i..i + |r|][k]
    {
      assert r[k] == l[k];
    }
  }

  lemma TrimDropsTail(s: string)
    ensures forall k :: |s| - |TrimLeft(s)| + |Trim(s)| <= k < |s| ==> IsTrimmed(s[k])
  {
    var l := TrimLeft(s);
    var i := |s| - |l|;
    var n := |TrimRight(l)|;
    assert |Trim(s)| == n;
    TrimLeftKeepsEnd(s);
    TrimRightDropsTrimmed(l);
    forall k | i + n <= k < |s|
      ensures IsTrimmed(s[k])
    {
      assert n <= k - i < |l|;
      assert s[k] == l[k - i];
    }
  }

  /** `trim` yields the infix of its input left after removing trimmed chars from both
      ends, and that infix neither starts nor ends with a trimmed char. */
  lemma TrimIsInfix(s: string)
    ensures exists i, j :: && 0 <= i <= j <= |s| && Trim(s) == s[i..j]
                           && (forall k :: 0 <= k < i ==> IsTrimmed(s[k]))
                           && (forall k :: j <= k < |s| ==> IsTrimmed(s[k]))
    ensures Trim(s) == [] || (!IsTrimmed(Trim(s)[0]) && !IsTrimmed(Trim(s)[|Trim(s)| - 1]))
  {
    var i, j := TrimSpan(s);
    TrimEnds(s);
  }

  // ---------------------------------------------------------------- split on one char

  /** Index of the first `c` in `s`, or `|s|` when there is none. */
  function IndexOf(s: string, c: char): (i: nat)
    ensures i <= |s|
    ensures i < |s| ==> s[i] == c
  {
    if s == [] then 0
    else if s[0] == c then 0
    else 1 + IndexOf(s[1..], c)
  }

  /** `IndexOf` finds the first occurrence: no `c` comes before it. */
  lemma {:induction false} IndexOfIsFirst(s: string, c: char)
    ensures forall k :: 0 <= k < IndexOf(s, c) ==> s[k] != c
    decreases |s|
  {
    if s != [] && s[0] != c {
      IndexOfIsFirst(s[1..], c);
      assert forall k :: 1 <= k < IndexOf(s, c) ==> s[k] == s[1..][k - 1];
    }
  }

  /** Every piece between delimiters, empty ones included (Java `split` with a negative limit). */
  function SplitAll(s: string, c: char): (parts: seq<string>)
    ensures |parts| >= 1
    decreases |s|
  {
    var i := IndexOf(s, c);
    if i == |s| then [s] else [s[..i]] + SplitAll(s[i + 1..], c)
  }

  /** `s.split(c, n)` for a positive limit `n`: the delimiter is applied at most `n - 1`
      times and the last piece keeps the rest of the string, delimiters and trailing
      empties included. */
  function SplitN(s: string, c: char, n: nat): (parts: seq<string>)
    requires n >= 1
    ensures 1 <= |parts| <= n
    decreases n
  {
    var i := IndexOf(s, c);
    if n == 1 || i == |s| then [s] else [s[..i]] + SplitN(s[i + 1..], c, n - 1)
  }

  function StripTrailingEmpty(parts: seq<string>): (r: seq<string>)
    ensures |r| <= |parts| && r == parts[..|r|]
    ensures r == [] || r[|r| - 1] != []
    ensures forall k :: |r| <= k < |parts| ==> parts[k] == []
  {
    if parts != [] && parts[|parts| - 1] == [] then StripTrailingEmpty(parts[..|parts| - 1]) else parts
  }

  /** `s.split(c)` (limit 0): when the delimiter never occurs the string itself is the
      one piece (even when it is empty); otherwise trailing empty pieces are removed. */
  function Split(s: string, c: char): seq<string>
  {
    if c !in s then [s] else StripTrailingEmpty(SplitAll(s, c))
  }

  function Join(parts: seq<string>, c: char): string
  {
    if parts == [] then [] else if |parts| == 1 then parts[0] else parts[0] + [c] + Join(parts[1..], c)
  }

  /** A leading piece free of the delimiter is split off exactly. */
  lemma SplitAllCons(a: string, c: char, b: string)
    requires c !in a
    ensures SplitAll(a + [c] + b, c) == [a] + SplitAll(b, c)
  {
    var s := a + [c] + b;
    assert s == a + ([c] + b);
    IndexOfPrefix(a, c, [c] + b);
    assert s[..|a|] == a && s[|a| + 1..] == b;
  }

  lemma SplitNCons(a: string, c: char, b: string, n: nat)
    requires c !in a && n >= 2
    ensures SplitN(a + [c] + b, c, n) == [a] + SplitN(b, c, n - 1)
  {
    var s := a + [c] + b;
    assert s == a + ([c] + b);
    IndexOfPrefix(a, c, [c] + b);
    assert s[..|a|] == a && s[|a| + 1..] == b;
  }

  lemma {:induction false} IndexOfPrefix(a: string, c: char, b: string)
    requires c !in a && (b == [] || b[0] == c)
    ensures IndexOf(a + b, c) == |a|
    decreases |a|
  {
    if a != [] {
      assert (a + b)[0] == a[0] && (a + b)[1..] == a[1..] + b;
      IndexOfPrefix(a[1..], c, b);
    } else {
      assert a + b == b;
    }
  }

  /** Splitting the join of delimiter-free pieces gives the pieces back. */
  lemma {:induction false} SplitAllJoin(parts: seq<string>, c: char)
    requires |parts| >= 1
    requires forall k :: 0 <= k < |parts| ==> c !in parts[k]
    ensures SplitAll(Join(parts, c), c) == parts
    decreases |parts|
  {
    if |parts| == 1 {
      assert IndexOf(parts[0], c) == |parts[0]|;
    } else {
      SplitAllJoin(parts[1..], c);
      SplitAllCons(parts[0], c, Join(parts[1..], c));
    }
  }

  /** Joining the pieces of a limited split rebuilds the string: no character is lost. */
  lemma {:induction false} SplitNJoin(s: string, c: char, n: nat)
    requires n >= 1
    ensures Join(SplitN(s, c, n), c) == s
    decreases n
  {
    var i := IndexOf(s, c);
    if n > 1 && i < |s| {
      SplitNJoin(s[i + 1..], c, n - 1);
      SplitNJoinStep(s, c, n);
    }
  }

  lemma SplitNJoinStep(s: string, c: char, n: nat)
    requires n >= 2 && IndexOf(s, c) < |s|
    requires Join(SplitN(s[IndexOf(s, c) + 1..], c, n - 1), c) == s[IndexOf(s, c) + 1..]
    ensures Join(SplitN(s, c, n), c) == s
  {
    var i := IndexOf(s, c);
    var rest := SplitN(s[i + 1..], c, n - 1);
    assert SplitN(s, c, n) == [s[..i]] + rest;
    JoinCons(s[..i], rest, c);
    Reassemble(s, i);
  }

  /** Every piece of a limited split except the last is free of the delimiter. */
  lemma {:induction false} SplitNLeadingFree(s: string, c: char, n: nat)
    requires n >= 1
    ensures forall k :: 0 <= k < |SplitN(s, c, n)| - 1 ==> c !in SplitN(s, c, n)[k]
    decreases n
  {
    var i := IndexOf(s, c);
    if n > 1 && i < |s| {
      var rest := SplitN(s[i + 1..], c, n - 1);
      SplitNLeadingFree(s[i + 1..], c, n - 1);
      IndexOfIsFirst(s, c);
      assert SplitN(s, c, n) == [s[..i]] + rest;
      assert c !in s[..i] by {
        forall k | 0 <= k < i ensures s[..i][k] != c { assert s[..i][k] == s[k]; }
      }
      forall k | 1 <= k < |SplitN(s, c, n)| - 1
        ensures c !in SplitN(s, c, n)[k]
      {
        assert SplitN(s, c, n)[k] == rest[k - 1];
      }
    }
  }

  /** A sequence is the part before position `i`, the element at `i` and the part after. */
  lemma Reassemble<T>(s: seq<T>, i: nat)
    requires i < |s|
    ensures s == s[..i] + [s[i]] + s[i + 1..]
  {
  }

  lemma JoinCons(a: string, rest: seq<string>, c: char)
    requires |rest| >= 1
    ensures Join([a] + rest, c) == a + [c] + Join(rest, c)
  {
    assert ([a] + rest)[1..] == rest;
  }

  /** A limit-4 split takes three delimiter-free leading pieces off exactly; the
      fourth piece is the whole rest, delimiters included. */
  lemma SplitNThreeFields(f0: string, f1: string, f2: string, rest: string, c: char)
    requires c !in f0 && c !in f1 && c !in f2
    ensures SplitN(f0 + [c] + f1 + [c] + f2 + [c] + rest, c, 4) == [f0, f1, f2, rest]
  {
    var t2 := f2 + [c] + rest;
    var t1 := f1 + [c] + t2;
    var t0 := f0 + [c] + t1;
    assert f0 + [c] + f1 + [c] + f2 + [c] + rest == t0;
    SplitNCons(f2, c, rest, 2);
    SplitNCons(f1, c, t2, 3);
    SplitNCons(f0, c, t1, 4);
  }

  lemma JoinFourFields(parts: seq<string>, c: char)
    requires |parts| == 4
    ensures Join(parts, c) == parts[0] + [c] + parts[1] + [c] + parts[2] + [c] + parts[3]
  {
    assert Join(parts[3..], c) == parts[3];
    assert Join(parts[2..], c) == parts[2] + [c] + parts[3];
    assert Join(parts[1..], c) == parts[1] + [c] + (parts[2] + [c] + parts[3]);
  }

  /** When a full split finds a delimiter, the string starts with the first piece
      followed by the delimiter. */
  lemma FirstFieldPrefix(s: string, c: char, w: string)
    requires |SplitAll(s, c)| >= 2 && SplitAll(s, c)[0] == w
    ensures StartsWith(s, w + [c])
  {
    var i := IndexOf(s, c);
    assert i < |s|;
    assert s[..i + 1] == s[..i] + [s[i]];
  }

  /** Number of occurrences of `c` in `s`. */
  function Count(s: string, c: char): nat
  {
    if s == [] then 0 else (if s[0] == c then 1 else 0) + Count(s[1..], c)
  }

  lemma {:induction false} CountPrefix(s: string, c: char, i: nat)
    requires i <= |s|
    requires forall k :: 0 <= k < i ==> s[k] != c
    ensures Count(s, c) == Count(s[i..], c)
    decreases i
  {
    if i > 0 {
      assert s[1..][i - 1..] == s[i..];
      CountPrefix(s[1..], c, i - 1);
    }
  }

  /** A full split yields one more piece than there are delimiters. */
  lemma {:induction false} SplitAllLength(s: string, c: char)
    ensures |SplitAll(s, c)| == Count(s, c) + 1
    decreases |s|
  {
    var i := IndexOf(s, c);
    IndexOfIsFirst(s, c);
    CountPrefix(s, c, i);
    if i == |s| {
      assert s[i..] == [];
    } else {
      SplitAllLength(s[i + 1..], c);
      assert s[i..][1..] == s[i + 1..];
    }
  }

  /** A limited split yields one more piece than there are delimiters, up to the limit. */
  lemma {:induction false} SplitNLength(s: string, c: char, n: nat)
    requires n >= 1
    ensures |SplitN(s, c, n)| == if Count(s, c) + 1 < n then Count(s, c) + 1 else n
    decreases n
  {
    var i := IndexOf(s, c);
    IndexOfIsFirst(s, c);
    CountPrefix(s, c, i);
    if i == |s| {
      assert s[i..] == [];
    } else if n > 1 {
      SplitNLength(s[i + 1..], c, n - 1);
      assert s[i..][1..] == s[i + 1..];
    }
  }

  // ---------------------------------------------------------------- split on whitespace runs

  /** The characters matched by the regular expression class `\s`. */
  predicate IsRegexSpace(c: char)
  {
    c == ' ' || c == '\t' || c == '\n' || c == '\U{B}' || c == '\U{C}' || c == '\r'
  }

  function FirstSpace(s: string): (i: nat)
    ensures i <= |s|
    ensures i < |s| ==> IsRegexSpace(s[i])
  {
    if s == [] || IsRegexSpace(s[0]) then 0 else 1 + FirstSpace(s[1..])
  }

  function SkipSpaces(s: string): (r: string)
    ensures |r| <= |s|
    ensures r == [] || !IsRegexSpace(r[0])
  {
    if s != [] && IsRegexSpace(s[0]) then SkipSpaces(s[1..]) else s
  }

  /** What `SkipSpaces` keeps is a suffix of its input. */
  lemma {:induction false} SkipSpacesIsSuffix(s: string)
    ensures SkipSpaces(s) == s[|s| - |SkipSpaces(s)|..]
    decreases |s|
  {
    if s != [] && IsRegexSpace(s[0]) {
      SkipSpacesIsSuffix(s[1..]);
      assert s[1..][|s| - 1 - |SkipSpaces(s)|..] == s[|s| - |SkipSpaces(s)|..];
    }
  }

  /** `s.split("\\s+", n)` for a positive limit `n`: each match is a maximal run of
      whitespace, applied at most `n - 1` times; the last piece keeps the rest. */
  function SplitSpacesN(s: string, n: nat): (parts: seq<string>)
    requires n >= 1
    ensures 1 <= |parts| <= n
    decreases n
  {
    var i := FirstSpace(s);
    if n == 1 || i == |s| then [s] else [s[..i]] + SplitSpacesN(SkipSpaces(s[i..]), n - 1)
  }

  // ---------------------------------------------------------------- decimal numbers

  predicate IsDigit(c: char) { '0' <= c <= '9' }

  predicate AllDigits(s: string) { forall k :: 0 <= k < |s| ==> IsDigit(s[k]) }

  /** The value of a string of decimal digits, most significant first. */
  function DigitsValue(ds: string): nat
    requires AllDigits(ds)
  {
    if ds == [] then 0 else DigitsValue(ds[..|ds| - 1]) * 10 + (ds[|ds| - 1] as int - '0' as int)
  }

  /** `Integer.parseInt` / `Long.parseLong` in radix 10 for the range `[lo, hi]`: an
      optional `+` or `-`, then at least one digit, and a value inside the range.
      Anything else throws NumberFormatException, which is `None` here. */
  function ParseDecimal(s: string, lo: int, hi: int): (r: Option<int>)
    ensures r.Some? ==> lo <= r.value <= hi
    ensures r.Some? ==> s != [] && (IsDigit(s[0]) || s[0] == '-' || s[0] == '+') && AllDigits(s[1..])
  {
    if s == [] then None
    else
      var neg := s[0] == '-';
      var ds := if s[0] == '-' || s[0] == '+' then s[1..] else s;
      if ds == [] || !AllDigits(ds) then None
      else
        var mag: int := DigitsValue(ds);
        var v := if neg then -mag else mag;
        if lo <= v <= hi then Some(v) else None
  }

  function ParseInt(s: string): (r: Option<Int32>)
  {
    match ParseDecimal(s, -0x8000_0000, 0x7fff_ffff)
    case None => None
    case Some(v) => Some(v)
  }

  function ParseLong(s: string): (r: Option<Int64>)
  {
    match ParseDecimal(s, -0x8000_0000_0000_0000, 0x7fff_ffff_ffff_ffff)
    case None => None
    case Some(v) => Some(v)
  }

  function DigitChar(d: nat): char
    requires d < 10
  {
    ('0' as int + d) as char
  }

  function NatToString(n: nat): (r: string)
    ensures r != [] && AllDigits(r)
  {
    if n < 10 then [DigitChar(n)] else NatToString(n / 10) + [DigitChar(n % 10)]
  }

  /** `Integer.toString` / `Long.toString`: a `-` for negatives, no leading zeros. */
  function IntToString(n: int): (r: string)
    ensures r != [] && IsDigit(r[|r| - 1])
    ensures forall k :: 0 <= k < |r| ==> IsDigit(r[k]) || r[k] == '-'
  {
    if n < 0 then "-" + NatToString(-n) else NatToString(n)
  }

  lemma {:induction false} DigitsValueOfNat(n: nat)
    ensures DigitsValue(NatToString(n)) == n
  {
    var s := NatToString(n);
    if n >= 10 {
      DigitsValueOfNat(n / 10);
      assert s[..|s| - 1] == NatToString(n / 10);
    }
  }

  /** Parsing the decimal text of an in-range number gives the number back. */
  lemma ParseDecimalOfString(n: int, lo: int, hi: int)
    requires lo <= n <= hi
    ensures ParseDecimal(IntToString(n), lo, hi) == Some(n)
  {
    var s := IntToString(n);
    if n < 0 {
      DigitsValueOfNat(-n);
      assert s[1..] == NatToString(-n);
    } else {
      DigitsValueOfNat(n);
    }
  }

  lemma ParseIntOfString(n: Int32)
    ensures ParseInt(IntToString(n)) == Some(n)
  {
    ParseDecimalOfString(n, -0x8000_0000, 0x7fff_ffff);
  }

  lemma ParseLongOfString(n: Int64)
    ensures ParseLong(IntToString(n)) == Some(n)
  {
    ParseDecimalOfString(n, -0x8000_0000_0000_0000, 0x7fff_ffff_ffff_ffff);
  }

  // ---------------------------------------------------------------- case and prefixes

  function ToLowerChar(c: char): char
  {
    if 'A' <= c <= 'Z' then (c as int - 'A' as int + 'a' as int) as char else c
  }

  function ToLower(s: string): (r: string)
    ensures |r| == |s|
  {
    seq(|s|, k requires 0 <= k < |s| => ToLowerChar(s[k]))
  }

  lemma ToLowerAppend(a: string, b: string)
    ensures ToLower(a + b) == ToLower(a) + ToLower(b)
  {
    assert forall k :: 0 <= k < |a + b| ==> ToLower(a + b)[k] == (ToLower(a) + ToLower(b))[k];
  }

  /** `equalsIgnoreCase`, restricted to ASCII letters. */
  predicate EqualsIgnoreCase(a: string, b: string)
  {
    ToLower(a) == ToLower(b)
  }

  predicate StartsWith(s: string, prefix: string)
  {
    |prefix| <= |s| && s[..|prefix|] == prefix
  }

  // ---------------------------------------------------------------- String.compareTo

  /** `a.compareTo(b) <= 0`: at the first differing position `a` has the smaller char,
      or `a` is a prefix of `b`. */
  predicate LexLe(a: string, b: string)
    decreases |a|
  {
    a == [] || (b != [] && (a[0] < b[0] || (a[0] == b[0] && LexLe(a[1..], b[1..]))))
  }

  lemma {:induction false} LexLeReflexive(a: string)
    ensures LexLe(a, a)
    decreases |a|
  {
    if a != [] {
      LexLeReflexive(a[1..]);
    }
  }

  lemma {:induction false} LexLeTotal(a: string, b: string)
    ensures LexLe(a, b) || LexLe(b, a)
    decreases |a|
  {
    if a != [] && b != [] && a[0] == b[0] {
      LexLeTotal(a[1..], b[1..]);
    }
  }

  lemma {:induction false} LexLeAntisymmetric(a: string, b: string)
    requires LexLe(a, b) && LexLe(b, a)
    ensures a == b
    decreases |a|
  {
    if a != [] {
      LexLeAntisymmetric(a[1..], b[1..]);
      assert a == [a[0]] + a[1..] && b == [b[0]] + b[1..];
    }
  }

  lemma {:induction false} LexLeTransitive(a: string, b: string, c: string)
    requires LexLe(a, b) && LexLe(b, c)
    ensures LexLe(a, c)
    decreases |a|
  {
    if a != [] && a[0] == b[0] && b[0] == c[0] {
      LexLeTransitive(a[1..], b[1..], c[1..]);
    }
  }
}
