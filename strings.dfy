/** Python `str` operations the model relies on: strip, split, join, lower, endswith and ordering. */
module Strings {

  /** Whitespace as `str.strip()` and `str.isspace()` see it in the ASCII and Latin-1 range. */
  predicate IsSpace(c: char) {
    c == ' ' || 9 <= c as int <= 13 || 0x1c <= c as int <= 0x1f || c as int == 0x85 || c as int == 0xa0
  }

  /** `s.lstrip()`: drops leading whitespace. */
  function LStrip(s: string): (r: string)
    ensures |r| <= |s| && r == s[|s| - |r|..]
    ensures r == [] || !IsSpace(r[0])
    ensures forall i :: 0 <= i < |s| - |r| ==> IsSpace(s[i])
  {
    if s != [] && IsSpace(s[0]) then LStrip(s[1..]) else s
  }

  /** `s.rstrip()`: drops trailing whitespace. */
  function RStrip(s: string): (r: string)
    ensures |r| <= |s| && r == s[..|r|]
    ensures r == [] || !IsSpace(r[|r| - 1])
    ensures forall i :: |r| <= i < |s| ==> IsSpace(s[i])
  {
    if s != [] && IsSpace(s[|s| - 1]) then RStrip(s[..|s| - 1]) else s
  }

  /** `s.strip()`. */
  function Strip(s: string): string {
    LStrip(RStrip(s))
  }

  /** A string that `strip()` leaves alone: no whitespace at either end. */
  predicate IsStripped(s: string) {
    s == [] || (!IsSpace(s[0]) && !IsSpace(s[|s| - 1]))
  }

  lemma StripResult(s: string)
    ensures IsStripped(Strip(s))
    ensures exists i, j :: 0 <= i <= j <= |s| && Strip(s) == s[i..j]
  {
    var r := RStrip(s);
    var l := LStrip(r);
    assert l == r[|r| - |l|..];
    if l != [] {
      assert l[|l| - 1] == r[|r| - 1];
    }
    assert l == s[|r| - |l|..|r|];
  }

  lemma StripOfStripped(s: string)
    requires IsStripped(s)
    ensures Strip(s) == s
  {
  }

  /** Stripping never removes a character that is not whitespace. */
  lemma StripKeepsNonSpace(s: string, c: char)
    requires !IsSpace(c)
    ensures CountChar(Strip(s), c) == CountChar(s, c)
  {
    RStripKeepsNonSpace(s, c);
    LStripKeepsNonSpace(RStrip(s), c);
  }

  lemma RStripKeepsNonSpace(s: string, c: char)
    requires !IsSpace(c)
    ensures CountChar(RStrip(s), c) == CountChar(s, c)
  {
    var r := RStrip(s);
    var tail := s[|r|..];
    assert s == r + tail;
    CountCharAppend(r, tail, c);
    CountCharSpaces(tail, c);
  }

  lemma LStripKeepsNonSpace(s: string, c: char)
    requires !IsSpace(c)
    ensures CountChar(LStrip(s), c) == CountChar(s, c)
  {
    var l := LStrip(s);
    var head := s[..|s| - |l|];
    assert s == head + l;
    CountCharAppend(head, l, c);
    CountCharSpaces(head, c);
  }

  /** Number of occurrences of `c` in `s`, as `s.count(c)`. */
  function CountChar(s: string, c: char): nat {
    if s == [] then 0 else (if s[0] == c then 1 else 0) + CountChar(s[1..], c)
  }

  lemma CountCharAppend(a: string, b: string, c: char)
    ensures CountChar(a + b, c) == CountChar(a, c) + CountChar(b, c)
  {
    if a == [] {
      assert a + b == b;
    } else {
      assert (a + b)[1..] == a[1..] + b;
      CountCharAppend(a[1..], b, c);
    }
  }

  lemma CountCharSpaces(s: string, c: char)
    requires !IsSpace(c)
    requires forall i :: 0 <= i < |s| ==> IsSpace(s[i])
    ensures CountChar(s, c) == 0
  {
    if s != [] {
      CountCharSpaces(s[1..], c);
    }
  }

  lemma CountCharZero(s: string, c: char)
    ensures CountChar(s, c) == 0 <==> c !in s
  {
    if s != [] {
      CountCharZero(s[1..], c);
      assert c in s <==> s[0] == c || c in s[1..];
    }
  }

  /** `s.startswith(p)`. */
  predicate StartsWith(s: string, p: string) {
    |p| <= |s| && s[..|p|] == p
  }

  /** `s.endswith(p)`. */
  predicate EndsWith(s: string, p: string) {
    |p| <= |s| && s[|s| - |p|..] == p
  }

  /** `s.endswith(tuple(ps))`. */
  predicate EndsWithAny(s: string, ps: seq<string>) {
    exists i :: 0 <= i < |ps| && EndsWith(s, ps[i])
  }

  /** `s.split(sep)` for a non-empty separator: split at each leftmost, non-overlapping occurrence. */
  function SplitOn(s: string, sep: string): (r: seq<string>)
    requires |sep| > 0
    ensures |r| >= 1
    decreases |s|
  {
    if StartsWith(s, sep) then [""] + SplitOn(s[|sep|..], sep)
    else if s == [] then [""]
    else var rest := SplitOn(s[1..], sep); [[s[0]] + rest[0]] + rest[1..]
  }

  /** `sep.join(parts)`. */
  function Join(parts: seq<string>, sep: string): string {
    if parts == [] then ""
    else if |parts| == 1 then parts[0]
    else parts[0] + sep + Join(parts[1..], sep)
  }

  /** Splitting and joining again with the same separator gives the input back. */
  lemma {:induction false} JoinSplit(s: string, sep: string)
    requires |sep| > 0
    ensures Join(SplitOn(s, sep), sep) == s
    decreases |s|
  {
    if StartsWith(s, sep) {
      JoinSplit(s[|sep|..], sep);
      JoinCons("", SplitOn(s[|sep|..], sep), sep);
      assert s == sep + s[|sep|..];
    } else if s == [] {
      assert SplitOn(s, sep) == [""];
    } else {
      JoinSplit(s[1..], sep);
      JoinHead(s[0], SplitOn(s[1..], sep), sep);
      assert s == [s[0]] + s[1..];
    }
  }

  /** Joining a list of at least two pieces puts the separator after the first. */
  lemma JoinCons(a: string, rest: seq<string>, sep: string)
    requires |rest| >= 1
    ensures Join([a] + rest, sep) == a + sep + Join(rest, sep)
  {
    assert ([a] + rest)[0] == a && ([a] + rest)[1..] == rest;
  }

  /** A character in front of the first piece comes in front of the join. */
  lemma JoinHead(c: char, rest: seq<string>, sep: string)
    requires |rest| >= 1
    ensures Join([[c] + rest[0]] + rest[1..], sep) == [c] + Join(rest, sep)
  {
    if |rest| > 1 {
      JoinCons([c] + rest[0], rest[1..], sep);
      JoinCons(rest[0], rest[1..], sep);
      assert rest == [rest[0]] + rest[1..];
    }
  }

  /** Splitting on one character gives one more piece than there are occurrences of it. */
  lemma {:induction false} SplitCharCount(s: string, c: char)
    ensures |SplitOn(s, [c])| == CountChar(s, c) + 1
    ensures forall i :: 0 <= i < |SplitOn(s, [c])| ==> c !in SplitOn(s, [c])[i]
    decreases |s|
  {
    if s != [] {
      SplitCharCount(s[1..], c);
      assert StartsWith(s, [c]) <==> s[0] == c;
      if s[0] != c {
        var rest := SplitOn(s[1..], [c]);
        assert c !in rest[0];
        assert forall i :: 1 <= i < |rest| ==> c !in rest[i];
      }
    }
  }

  /** Splitting the join of comma-free pieces on that character gives the pieces back. */
  lemma {:induction false} SplitJoinChar(ps: seq<string>, c: char)
    requires |ps| >= 1
    requires forall i :: 0 <= i < |ps| ==> c !in ps[i]
    ensures SplitOn(Join(ps, [c]), [c]) == ps
    decreases |ps|
  {
    if |ps| == 1 {
      SplitNoSep(ps[0], c);
    } else {
      SplitJoinChar(ps[1..], c);
      SplitAfterPiece(ps[0], Join(ps[1..], [c]), c);
    }
  }

  lemma {:induction false} SplitNoSep(s: string, c: char)
    requires c !in s
    ensures SplitOn(s, [c]) == [s]
    decreases |s|
  {
    if s != [] {
      assert s[0] != c;
      assert !StartsWith(s, [c]);
      SplitNoSep(s[1..], c);
      assert SplitOn(s, [c]) == [[s[0]] + SplitOn(s[1..], [c])[0]] + SplitOn(s[1..], [c])[1..];
      assert [s[0]] + s[1..] == s;
    }
  }

  lemma {:induction false} SplitAfterPiece(p: string, t: string, c: char)
    requires c !in p
    ensures SplitOn(p + [c] + t, [c]) == [p] + SplitOn(t, [c])
    decreases |p|
  {
    if p == [] {
      assert p + [c] + t == [c] + t;
      assert ([c] + t)[1..] == t;
    } else {
      assert (p + [c] + t)[1..] == p[1..] + [c] + t;
      var s := p + [c] + t;
      assert s[0] == p[0] != c;
      assert !StartsWith(s, [c]);
      SplitAfterPiece(p[1..], t, c);
      assert SplitOn(s, [c]) == [[s[0]] + SplitOn(s[1..], [c])[0]] + SplitOn(s[1..], [c])[1..];
      assert [p[0]] + p[1..] == p;
    }
  }

  /** `sep.join(parts)` split off at its last piece. */
  lemma {:induction false} JoinLastPiece(ps: seq<string>, sep: string)
    requires |ps| >= 2
    ensures Join(ps, sep) == Join(ps[..|ps| - 1], sep) + sep + ps[|ps| - 1]
    decreases |ps|
  {
    if |ps| > 2 {
      JoinLastPiece(ps[1..], sep);
      assert ps[1..][..|ps| - 2] == ps[..|ps| - 1][1..];
    }
  }

  /** A join starts with its first piece. */
  lemma JoinStartsWithFirst(ps: seq<string>, sep: string)
    requires ps != []
    ensures StartsWith(Join(ps, sep), ps[0])
  {
  }

  /** Joining stripped pieces gives a stripped string when the ends are not whitespace. */
  lemma JoinStripped(ps: seq<string>, sep: string)
    requires |ps| >= 1 && |sep| > 0
    requires forall i :: 0 <= i < |ps| ==> IsStripped(ps[i])
    requires ps[0] != "" || !IsSpace(sep[0])
    requires ps[|ps| - 1] != "" || !IsSpace(sep[|sep| - 1])
    ensures IsStripped(Join(ps, sep))
  {
    if |ps| >= 2 {
      var j := Join(ps, sep);
      assert j == ps[0] + sep + Join(ps[1..], sep);
      JoinLastPiece(ps, sep);
      var last := ps[|ps| - 1];
      assert j[|j| - 1] == (if last != "" then last[|last| - 1] else sep[|sep| - 1]);
    }
  }

  /** A blank before a stripped, non-empty string is all that `strip()` removes. */
  lemma StripSpacePrefix(t: string)
    requires t != "" && IsStripped(t)
    ensures Strip(" " + t) == t
  {
    assert RStrip(" " + t) == " " + t;
    assert (" " + t)[1..] == t;
  }

  /** Stripping cannot introduce a character that is not whitespace. */
  lemma StripKeepsAbsent(s: string, c: char)
    requires !IsSpace(c) && c !in s
    ensures c !in Strip(s)
  {
    CountCharZero(s, c);
    StripKeepsNonSpace(s, c);
    CountCharZero(Strip(s), c);
  }

  /** `[x.strip() for x in parts]`. */
  function StripAll(parts: seq<string>): (r: seq<string>)
    ensures |r| == |parts| && forall i :: 0 <= i < |parts| ==> r[i] == Strip(parts[i])
  {
    seq(|parts|, i requires 0 <= i < |parts| => Strip(parts[i]))
  }

  /** The pieces `[x.strip() for x in s.strip().split(",")]` that both field splitters start from. */
  function TidyPieces(s: string): (r: seq<string>)
    ensures |r| == CountChar(s, ',') + 1
    ensures forall i :: 0 <= i < |r| ==> IsStripped(r[i]) && ',' !in r[i]
  {
    var parts := SplitOn(Strip(s), ",");
    SplitCharCount(Strip(s), ',');
    StripKeepsNonSpace(s, ',');
    forall i | 0 <= i < |parts|
      ensures IsStripped(Strip(parts[i])) && ',' !in Strip(parts[i])
    {
      StripResult(parts[i]);
      StripKeepsAbsent(parts[i], ',');
    }
    StripAll(parts)
  }

  /** Comma-free stripped pieces joined with "," come back unchanged. */
  lemma TidyPiecesJoin(ts: seq<string>)
    requires |ts| >= 1
    requires forall i :: 0 <= i < |ts| ==> IsStripped(ts[i]) && ',' !in ts[i]
    ensures TidyPieces(Join(ts, ",")) == ts
  {
    var j := Join(ts, ",");
    assert !IsSpace(',');
    JoinStripped(ts, ",");
    StripOfStripped(j);
    SplitJoinChar(ts, ',');
    assert SplitOn(Strip(j), ",") == ts;
    StripAllStripped(ts);
  }

  /** Stripped strings are left alone by `StripAll`. */
  lemma StripAllStripped(ts: seq<string>)
    requires forall i :: 0 <= i < |ts| ==> IsStripped(ts[i])
    ensures StripAll(ts) == ts
  {
    forall i | 0 <= i < |ts| ensures Strip(ts[i]) == ts[i] {
      StripOfStripped(ts[i]);
    }
  }

  /** Non-empty, comma-free stripped pieces joined with ", " come back unchanged. */
  lemma TidyPiecesJoinCommaSpace(ts: seq<string>)
    requires |ts| >= 1
    requires forall i :: 0 <= i < |ts| ==> ts[i] != "" && IsStripped(ts[i]) && ',' !in ts[i]
    ensures TidyPieces(Join(ts, ", ")) == ts
  {
    var j := Join(ts, ", ");
    assert Strip(j) == j by {
      JoinStripped(ts, ", ");
      StripOfStripped(j);
    }
    var parts := SplitOn(j, ",");
    assert StripAll(parts) == ts by {
      SplitCommaSpace(ts);
      StripAllBlankPrefixed(ts, parts);
    }
    assert TidyPieces(j) == StripAll(parts);
  }

  lemma StripAllBlankPrefixed(ts: seq<string>, parts: seq<string>)
    requires forall i :: 0 <= i < |ts| ==> ts[i] != "" && IsStripped(ts[i])
    requires |parts| == |ts| >= 1 && parts[0] == ts[0]
    requires forall i :: 1 <= i < |ts| ==> parts[i] == " " + ts[i]
    ensures StripAll(parts) == ts
  {
    forall i | 0 <= i < |ts| ensures Strip(parts[i]) == ts[i] {
      if i == 0 {
        StripOfStripped(ts[0]);
      } else {
        StripSpacePrefix(ts[i]);
      }
    }
  }

  /** Splitting a ", "-join on "," leaves a blank in front of every piece but the first. */
  lemma {:induction false} SplitCommaSpace(ts: seq<string>)
    requires |ts| >= 1
    requires forall i :: 0 <= i < |ts| ==> ',' !in ts[i]
    ensures var p := SplitOn(Join(ts, ", "), ",");
      |p| == |ts| && p[0] == ts[0] && forall i :: 1 <= i < |ts| ==> p[i] == " " + ts[i]
    decreases |ts|
  {
    if |ts| == 1 {
      SplitNoSep(ts[0], ',');
    } else {
      var rest := Join(ts[1..], ", ");
      assert Join(ts, ", ") == ts[0] + [','] + (" " + rest);
      SplitAfterPiece(ts[0], " " + rest, ',');
      SplitCommaSpace(ts[1..]);
      var q := SplitOn(rest, ",");
      assert !StartsWith(" " + rest, ",");
      assert (" " + rest)[1..] == rest;
      assert SplitOn(" " + rest, ",") == [" " + q[0]] + q[1..];
    }
  }

  /** `[x for x in xs if x]`: the non-empty strings, in their order. */
  function NonEmpty(xs: seq<string>): (r: seq<string>)
    ensures |r| <= |xs|
    ensures forall i :: 0 <= i < |r| ==> r[i] != "" && r[i] in xs
  {
    if xs == [] then []
    else if xs[0] == "" then NonEmpty(xs[1..])
    else [xs[0]] + NonEmpty(xs[1..])
  }

  /** Every non-empty string of `xs` is kept. */
  lemma {:induction false} NonEmptyKeeps(xs: seq<string>, i: nat)
    requires i < |xs| && xs[i] != ""
    ensures xs[i] in NonEmpty(xs)
    decreases |xs|
  {
    if i > 0 {
      NonEmptyKeeps(xs[1..], i - 1);
      assert xs[1..][i - 1] == xs[i];
    }
  }

  /** Filtering keeps order: it distributes over concatenation. */
  lemma {:induction false} NonEmptyAppend(a: seq<string>, b: seq<string>)
    ensures NonEmpty(a + b) == NonEmpty(a) + NonEmpty(b)
    decreases |a|
  {
    if a == [] {
      assert a + b == b;
    } else {
      assert (a + b)[1..] == a[1..] + b;
      NonEmptyAppend(a[1..], b);
    }
  }

  /** Filtering a list with no empty string leaves it as it is. */
  lemma {:induction false} NonEmptyOfNonEmpty(xs: seq<string>)
    requires forall i :: 0 <= i < |xs| ==> xs[i] != ""
    ensures NonEmpty(xs) == xs
    decreases |xs|
  {
    if xs != [] {
      NonEmptyOfNonEmpty(xs[1..]);
    }
  }

  /** No element occurs twice. */
  predicate Distinct(xs: seq<string>) {
    forall i, j :: 0 <= i < j < |xs| ==> xs[i] != xs[j]
  }

  /** The distinct elements of `xs`, each at its first occurrence. */
  function Dedup(xs: seq<string>): (r: seq<string>)
    ensures |r| <= |xs|
    ensures forall x :: x in r <==> x in xs
    ensures Distinct(r)
  {
    if xs == [] then []
    else
      var init := Dedup(xs[..|xs| - 1]);
      if xs[|xs| - 1] in init then init else init + [xs[|xs| - 1]]
  }

  /** Lower-cases one character (ASCII letters; other characters are kept). */
  function LowerChar(c: char): char {
    if 'A' <= c <= 'Z' then (c as int + 32) as char else c
  }

  /** `s.lower()` for ASCII letters. */
  function Lower(s: string): (r: string)
    ensures |r| == |s|
    ensures forall i :: 0 <= i < |s| ==> r[i] == LowerChar(s[i])
  {
    seq(|s|, i requires 0 <= i < |s| => LowerChar(s[i]))
  }

  lemma LowerIdempotent(s: string)
    ensures Lower(Lower(s)) == Lower(s)
  {
  }

  /** A string that `lower()` leaves alone. */
  predicate IsLower(s: string) {
    Lower(s) == s
  }

  /** Strict `<` of Python strings: code-point lexicographic order, a proper prefix first. */
  predicate LexLess(a: string, b: string)
    decreases |a|
  {
    |b| > 0 && (|a| == 0 || a[0] < b[0] || (a[0] == b[0] && LexLess(a[1..], b[1..])))
  }

  /** `<=` of Python strings. */
  predicate LexLe(a: string, b: string) {
    a == b || LexLess(a, b)
  }

  lemma {:induction false} LexTotal(a: string, b: string)
    ensures LexLe(a, b) || LexLe(b, a)
    decreases |a|
  {
    if |a| > 0 && |b| > 0 && a[0] == b[0] {
      LexTotal(a[1..], b[1..]);
      if a[1..] == b[1..] {
        assert a == [a[0]] + a[1..] && b == [b[0]] + b[1..];
      }
    }
  }

  /** Of two strings, at most one is less than the other. */
  lemma {:induction false} LexLessAsymmetric(a: string, b: string)
    requires LexLess(a, b)
    ensures !LexLess(b, a)
    decreases |a|
  {
    if |a| > 0 && a[0] == b[0] {
      LexLessAsymmetric(a[1..], b[1..]);
    }
  }

  /** Of two different strings, one is less than the other. */
  lemma LexLessTotal(a: string, b: string)
    requires a != b
    ensures LexLess(a, b) || LexLess(b, a)
  {
    LexTotal(a, b);
  }

  lemma LexLessTrans(a: string, b: string, c: string)
    requires LexLess(a, b) && LexLess(b, c)
    ensures LexLess(a, c) && a != c
  {
    LexTrans(a, b, c);
    LexLessAsymmetric(a, b);
  }

  lemma {:induction false} LexTrans(a: string, b: string, c: string)
    requires LexLe(a, b) && LexLe(b, c)
    ensures LexLe(a, c)
    decreases |a|
  {
    if a != b && b != c && |a| > 0 && a[0] == b[0] && b[0] == c[0] {
      LexTrans(a[1..], b[1..], c[1..]);
      if a[1..] == c[1..] {
        assert a == [a[0]] + a[1..] && c == [c[0]] + c[1..];
      }
    }
  }

  /** Sorted by a string key, as `sorted(xs, key=key)` leaves a list. */
  predicate SortedBy<T>(xs: seq<T>, key: T -> string) {
    forall i, j :: 0 <= i < j < |xs| ==> LexLe(key(xs[i]), key(xs[j]))
  }

  /** Inserts `x` into a sorted list after every element whose key is not greater (keeps stability). */
  function InsertBy<T>(acc: seq<T>, x: T, key: T -> string): (r: seq<T>)
    ensures multiset(r) == multiset(acc) + multiset{x}
    decreases |acc|
  {
    if acc == [] then [x]
    else if LexLe(key(acc[|acc| - 1]), key(x)) then acc + [x]
    else
      assert acc == acc[..|acc| - 1] + [acc[|acc| - 1]];
      InsertBy(acc[..|acc| - 1], x, key) + [acc[|acc| - 1]]
  }

  /** `sorted(xs, key=key)`: a stable insertion sort. */
  function SortBy<T>(xs: seq<T>, key: T -> string): (r: seq<T>)
    ensures multiset(r) == multiset(xs)
    decreases |xs|
  {
    if xs == [] then []
    else
      assert xs == xs[..|xs| - 1] + [xs[|xs| - 1]];
      InsertBy(SortBy(xs[..|xs| - 1], key), xs[|xs| - 1], key)
  }

  lemma {:induction false} InsertBySorted<T>(acc: seq<T>, x: T, key: T -> string)
    requires SortedBy(acc, key)
    ensures SortedBy(InsertBy(acc, x, key), key)
    decreases |acc|
  {
    if acc != [] && !LexLe(key(acc[|acc| - 1]), key(x)) {
      var init := acc[..|acc| - 1];
      var last := acc[|acc| - 1];
      var r := InsertBy(init, x, key);
      assert InsertBy(acc, x, key) == r + [last];
      assert SortedBy(init, key);
      InsertBySorted(init, x, key);
      LexTotal(key(last), key(x));
      forall i | 0 <= i < |r|
        ensures LexLe(key(r[i]), key(last))
      {
        assert r[i] in multiset(r);
        if r[i] != x {
          assert r[i] in multiset(init);
          var k :| 0 <= k < |init| && init[k] == r[i];
          assert acc[k] == r[i];
        }
      }
      SortedAppend(r, last, key);
    } else if acc != [] {
      forall i | 0 <= i < |acc| ensures LexLe(key(acc[i]), key(x)) {
        if i < |acc| - 1 {
          LexTrans(key(acc[i]), key(acc[|acc| - 1]), key(x));
        }
      }
      SortedAppend(acc, x, key);
    }
  }

  /** A sorted list stays sorted when an element with a key no smaller than all is appended. */
  lemma SortedAppend<T>(xs: seq<T>, y: T, key: T -> string)
    requires SortedBy(xs, key)
    requires forall i :: 0 <= i < |xs| ==> LexLe(key(xs[i]), key(y))
    ensures SortedBy(xs + [y], key)
  {
    var s := xs + [y];
    forall i, j | 0 <= i < j < |s| ensures LexLe(key(s[i]), key(s[j])) {
      assert s[i] == xs[i];
      if j < |xs| {
        assert s[j] == xs[j];
      }
    }
  }

  /** `sorted` returns a sorted permutation of its input. */
  lemma {:induction false} SortBySorted<T>(xs: seq<T>, key: T -> string)
    ensures SortedBy(SortBy(xs, key), key)
    ensures multiset(SortBy(xs, key)) == multiset(xs)
    decreases |xs|
  {
    if xs != [] {
      SortBySorted(xs[..|xs| - 1], key);
      InsertBySorted(SortBy(xs[..|xs| - 1], key), xs[|xs| - 1], key);
    }
  }

  /** The identity on strings: the key of a plain `sorted` of a list of strings. */
  function Itself(t: string): string {
    t
  }

  /** `[f(x) for x in xs]`. */
  function MapSeq<A, B>(f: A -> B, xs: seq<A>): (r: seq<B>)
    ensures |r| == |xs| && forall i :: 0 <= i < |xs| ==> r[i] == f(xs[i])
    decreases |xs|
  {
    if xs == [] then [] else [f(xs[0])] + MapSeq(f, xs[1..])
  }

  lemma {:induction false} MapSeqAppend<A, B>(f: A -> B, xs: seq<A>, ys: seq<A>)
    ensures MapSeq(f, xs + ys) == MapSeq(f, xs) + MapSeq(f, ys)
    decreases |xs|
  {
    if xs == [] {
      assert xs + ys == ys;
    } else {
      assert (xs + ys)[0] == xs[0] && (xs + ys)[1..] == xs[1..] + ys;
      MapSeqAppend(f, xs[1..], ys);
    }
  }

  /** Taking out the element at `j` takes its image out of the mapped list. */
  lemma {:induction false} MapRemove<A, B>(f: A -> B, ys: seq<A>, j: nat)
    requires j < |ys|
    ensures multiset(MapSeq(f, ys)) == multiset{f(ys[j])} + multiset(MapSeq(f, ys[..j] + ys[j + 1..]))
  {
    assert ys == ys[..j] + ([ys[j]] + ys[j + 1..]);
    MapSeqAppend(f, ys[..j], [ys[j]] + ys[j + 1..]);
    MapSeqAppend(f, [ys[j]], ys[j + 1..]);
    MapSeqAppend(f, ys[..j], ys[j + 1..]);
  }

  /** Mapping two permutations of a list gives permutations of each other. */
  lemma {:induction false} MapPerm<A, B>(f: A -> B, xs: seq<A>, ys: seq<A>)
    requires multiset(xs) == multiset(ys)
    ensures multiset(MapSeq(f, xs)) == multiset(MapSeq(f, ys))
    decreases |xs|
  {
    if xs != [] {
      var x := xs[0];
      assert x in multiset(ys);
      var j :| 0 <= j < |ys| && ys[j] == x;
      var rest := ys[..j] + ys[j + 1..];
      assert ys == ys[..j] + [x] + ys[j + 1..];
      assert xs == [x] + xs[1..];
      assert multiset(xs[1..]) == multiset(xs) - multiset{x};
      assert multiset(rest) == multiset(ys) - multiset{x};
      MapPerm(f, xs[1..], rest);
      MapRemove(f, ys, j);
    }
  }

  /** A list is sorted by a key exactly when its list of keys is sorted. */
  lemma SortedMapped<T>(xs: seq<T>, key: T -> string)
    ensures SortedBy(xs, key) <==> SortedBy(MapSeq(key, xs), Itself)
  {
    var ks := MapSeq(key, xs);
    assert forall i :: 0 <= i < |xs| ==> Itself(ks[i]) == key(xs[i]);
  }

  // ---------------------------------------------------------------------------------------------
  // splitlines

  /** A line boundary of `str.splitlines()`. */
  predicate IsLineBreak(c: char) {
    c == '\n' || c == '\r' || c as int == 0x0b || c as int == 0x0c || 0x1c <= c as int <= 0x1e
    || c as int == 0x85 || c as int == 0x2028 || c as int == 0x2029
  }

  /** A string without line boundaries. */
  predicate NoBreak(s: string) {
    forall k :: 0 <= k < |s| ==> !IsLineBreak(s[k])
  }

  /** The position of the first line boundary at or after `i`, or `|s|`. */
  function BreakFrom(s: string, i: nat): (r: nat)
    requires i <= |s|
    ensures i <= r <= |s| && (r < |s| ==> IsLineBreak(s[r])) && forall k :: i <= k < r ==> !IsLineBreak(s[k])
    decreases |s| - i
  {
    if i == |s| || IsLineBreak(s[i]) then i else BreakFrom(s, i + 1)
  }

  /**
   * `s.splitlines()`: the lines without their boundaries. "\r\n" is one boundary, and a boundary at
   * the very end opens no further line.
   */
  function SplitLines(s: string): (r: seq<string>)
    ensures forall k :: 0 <= k < |r| ==> NoBreak(r[k])
    ensures s == [] <==> r == []
    decreases |s|
  {
    if s == [] then []
    else
      var b := BreakFrom(s, 0);
      if b == |s| then [s]
      else
        var next := if s[b] == '\r' && b + 1 < |s| && s[b + 1] == '\n' then b + 2 else b + 1;
        [s[..b]] + SplitLines(s[next..])
  }

  /** A text without boundaries is one line. */
  lemma SplitLinesOne(s: string)
    requires s != [] && NoBreak(s)
    ensures SplitLines(s) == [s]
  {
    assert BreakFrom(s, 0) == |s|;
  }

  /** A line ended by a one-character boundary comes first, then the lines of the rest. */
  lemma SplitLinesNext(a: string, c: char, b: string)
    requires NoBreak(a) && IsLineBreak(c) && c != '\r'
    ensures SplitLines(a + [c] + b) == [a] + SplitLines(b)
  {
    var s := a + [c] + b;
    assert s[|a|] == c;
    assert BreakFrom(s, 0) == |a|;
    assert s[..|a|] == a && s[|a| + 1..] == b;
  }

  /** A line ended by "\r\n" comes first, then the lines of the rest. */
  lemma SplitLinesCrLf(a: string, b: string)
    requires NoBreak(a)
    ensures SplitLines(a + "\r\n" + b) == [a] + SplitLines(b)
  {
    var s := a + "\r\n" + b;
    assert s[|a|] == '\r' && s[|a| + 1] == '\n';
    assert BreakFrom(s, 0) == |a|;
    assert s[..|a|] == a && s[|a| + 2..] == b;
  }

  /**
   * On a text whose only boundaries are "\n" and that does not end with one, joining the lines with
   * "\n" gives the text back.
   */
  lemma {:induction false} SplitLinesJoin(s: string)
    requires forall k :: 0 <= k < |s| ==> s[k] == '\n' || !IsLineBreak(s[k])
    requires s == [] || s[|s| - 1] != '\n'
    ensures Join(SplitLines(s), "\n") == s
    decreases |s|
  {
    if s != [] {
      var b := BreakFrom(s, 0);
      if b < |s| {
        assert s[b] == '\n' && b + 1 < |s|;
        var t := s[b + 1..];
        SplitLinesJoin(t);
        assert t != [] && SplitLines(t) != [];
        assert s == s[..b] + "\n" + t;
      }
    }
  }
}
