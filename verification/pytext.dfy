/** Python string operations used by the serializers: `str.strip()`,
    `" ".join(...)` and, as the inverse of the join, `str.split(" ")`. */
module PyText {

  /** The characters Python's `str.isspace()` accepts, which are the ones
      `str.strip()` without arguments discards. */
  const Whitespace: set<char> := {
    '\t', '\n', '\U{0B}', '\U{0C}', '\r', '\U{1C}', '\U{1D}', '\U{1E}', '\U{1F}', ' ',
    '\U{85}', '\U{A0}', '\U{1680}', '\U{2000}', '\U{2001}', '\U{2002}', '\U{2003}',
    '\U{2004}', '\U{2005}', '\U{2006}', '\U{2007}', '\U{2008}', '\U{2009}', '\U{200A}',
    '\U{2028}', '\U{2029}', '\U{202F}', '\U{205F}', '\U{3000}'
  }

  predicate IsSpace(c: char) {
    c in Whitespace
  }

  /** No visible ASCII character is whitespace. */
  lemma VisibleIsNotSpace(c: char)
    requires '!' <= c <= '~'
    ensures !IsSpace(c)
  {
  }

  /** Every character of `s` is one of `chars`. */
  predicate AllIn(s: string, chars: set<char>) {
    forall k :: 0 <= k < |s| ==> s[k] in chars
  }

  /** Neither end of `s` is one of `chars`. */
  predicate TrimmedOf(s: string, chars: set<char>) {
    s == [] || (s[0] !in chars && s[|s| - 1] !in chars)
  }

  predicate AllSpace(s: string) {
    AllIn(s, Whitespace)
  }

  /** Neither end of `s` is whitespace. */
  predicate Trimmed(s: string) {
    TrimmedOf(s, Whitespace)
  }

  /** The number of characters of `chars` at the front of `s`. */
  function LeadingRun(s: string, chars: set<char>): (n: nat)
    ensures n <= |s|
    ensures AllIn(s[..n], chars)
    ensures n < |s| ==> s[n] !in chars
  {
    if s == [] || s[0] !in chars then 0 else 1 + LeadingRun(s[1..], chars)
  }

  /** The number of characters of `chars` at the back of `s`. */
  function TrailingRun(s: string, chars: set<char>): (n: nat)
    ensures n <= |s|
    ensures AllIn(s[|s| - n..], chars)
    ensures n < |s| ==> s[|s| - 1 - n] !in chars
  {
    if s == [] || s[|s| - 1] !in chars then 0 else 1 + TrailingRun(s[..|s| - 1], chars)
  }

  /** Cutting `s[..i]` and `s[j..]`, both made of `chars`, off `s` leaves
      `r`, neither of whose ends is one of `chars`. */
  ghost predicate StripsTo(s: string, r: string, i: int, j: int, chars: set<char>) {
    && 0 <= i <= j <= |s|
    && r == s[i..j]
    && AllIn(s[..i], chars)
    && AllIn(s[j..], chars)
    && TrimmedOf(r, chars)
  }

  /** `r` is what remains of `s` once the characters of `chars` at both ends
      are cut off. */
  ghost predicate IsStripOf(r: string, s: string, chars: set<char>) {
    exists i, j :: StripsTo(s, r, i, j, chars)
  }

  /** `s.strip(chars)` */
  function StripChars(s: string, chars: set<char>): (r: string)
    ensures TrimmedOf(r, chars)
    ensures IsStripOf(r, s, chars)
    ensures |r| <= |s|
  {
    var i := LeadingRun(s, chars);
    var n := TrailingRun(s[i..], chars);
    CutEnds(s, i, n, chars);
    s[i..|s| - n]
  }

  /** `s.strip()` */
  function Strip(s: string): string {
    StripChars(s, Whitespace)
  }

  /** Cutting the leading run and then the trailing one leaves a trimmed
      slice. */
  lemma CutEnds(s: string, i: nat, n: nat, chars: set<char>)
    requires i <= |s| && AllIn(s[..i], chars) && (i < |s| ==> s[i] !in chars)
    requires n <= |s| - i && AllIn(s[i..][|s| - i - n..], chars)
    requires n < |s| - i ==> s[i..][|s| - i - 1 - n] !in chars
    ensures StripsTo(s, s[i..|s| - n], i, |s| - n, chars)
  {
    assert s[i..][|s| - i - n..] == s[|s| - n..];
    if n < |s| - i {
      assert s[i..][|s| - i - 1 - n] == s[|s| - 1 - n];
    }
  }

  /** Any way of cutting characters of `chars` off both ends of `s` that
      leaves a string trimmed of them leaves exactly `s.strip(chars)`. */
  lemma StripWitness(r: string, s: string, i: int, j: int, chars: set<char>)
    requires StripsTo(s, r, i, j, chars)
    ensures r == StripChars(s, chars)
  {
    var t := StripChars(s, chars);
    var a, b :| StripsTo(s, t, a, b, chars);
    SameCut(s, r, i, j, t, a, b, chars);
  }

  /** Two ways of cutting characters of `chars` off both ends of `s`, each
      leaving a string trimmed of them, leave the same string. */
  lemma SameCut(s: string, r: string, i: int, j: int, t: string, a: int, b: int, chars: set<char>)
    requires StripsTo(s, r, i, j, chars) && StripsTo(s, t, a, b, chars)
    ensures r == t
  {
    if r == [] {
      EmptyCut(s, r, i, j, t, a, b, chars);
    } else if t == [] {
      EmptyCut(s, t, a, b, r, i, j, chars);
    } else {
      NonEmptyCut(s, r, i, j, t, a, b, chars);
    }
  }

  /** When some cut leaves nothing, `s` is made only of `chars`, so every
      cut leaves nothing. */
  lemma EmptyCut(s: string, r: string, i: int, j: int, t: string, a: int, b: int, chars: set<char>)
    requires StripsTo(s, r, i, j, chars) && StripsTo(s, t, a, b, chars)
    requires r == []
    ensures t == []
  {
  }

  /** Two cuts that leave something start and end at the same places. */
  lemma NonEmptyCut(s: string, r: string, i: int, j: int, t: string, a: int, b: int, chars: set<char>)
    requires StripsTo(s, r, i, j, chars) && StripsTo(s, t, a, b, chars)
    requires r != [] && t != []
    ensures i == a && j == b
  {
    assert s[i] == r[0] && s[a] == t[0];
    assert s[j - 1] == r[|r| - 1] && s[b - 1] == t[|t| - 1];
  }

  /** The strip of a string is determined uniquely by `IsStripOf`. */
  lemma StripOfUnique(r1: string, r2: string, s: string, chars: set<char>)
    requires IsStripOf(r1, s, chars) && IsStripOf(r2, s, chars)
    ensures r1 == r2
  {
    var i1, j1 :| StripsTo(s, r1, i1, j1, chars);
    var i2, j2 :| StripsTo(s, r2, i2, j2, chars);
    SameCut(s, r1, i1, j1, r2, i2, j2, chars);
  }

  /** Stripping a string neither of whose ends is one of `chars` leaves it
      as it is. */
  lemma StripTrimmed(s: string, chars: set<char>)
    requires TrimmedOf(s, chars)
    ensures StripChars(s, chars) == s
  {
    assert s == s[0..|s|] && s[..0] == [] && s[|s|..] == [];
    StripWitness(s, s, 0, |s|, chars);
  }

  /** `s.strip(chars)` is idempotent. */
  lemma StripIdempotent(s: string, chars: set<char>)
    ensures StripChars(StripChars(s, chars), chars) == StripChars(s, chars)
  {
    StripTrimmed(StripChars(s, chars), chars);
  }

  /** Padding made of `chars` on either side of a string trimmed of them is
      exactly what `strip(chars)` removes. */
  lemma PaddedStrip(pre: string, s: string, post: string, chars: set<char>)
    requires AllIn(pre, chars) && AllIn(post, chars) && TrimmedOf(s, chars)
    ensures StripChars(pre + s + post, chars) == s
  {
    var w := pre + s + post;
    assert w[|pre|..|pre| + |s|] == s;
    assert w[..|pre|] == pre && w[|pre| + |s|..] == post;
    StripWitness(s, w, |pre|, |pre| + |s|, chars);
  }

  /** Every string of `parts` has non-whitespace ends. */
  predicate AllTrimmed(parts: seq<string>) {
    forall k :: 0 <= k < |parts| ==> Trimmed(parts[k])
  }

  predicate NoSpace(s: string) {
    forall k :: 0 <= k < |s| ==> s[k] != ' '
  }

  /** No string of `parts` holds a space. */
  predicate AllNoSpace(parts: seq<string>) {
    forall k :: 0 <= k < |parts| ==> NoSpace(parts[k])
  }

  lemma AllTrimmedThree(a: string, b: string, c: string)
    requires Trimmed(a) && Trimmed(b) && Trimmed(c)
    ensures AllTrimmed([a, b, c])
  {
  }

  lemma AllNoSpaceThree(a: string, b: string, c: string)
    requires NoSpace(a) && NoSpace(b) && NoSpace(c)
    ensures AllNoSpace([a, b, c])
  {
  }

  /** `[p for p in parts if p]`: the non-empty strings of `parts`, in order. */
  function NonEmpty(parts: seq<string>): (r: seq<string>)
    ensures |r| <= |parts|
    ensures forall k :: 0 <= k < |r| ==> r[k] != []
    ensures AllTrimmed(parts) ==> AllTrimmed(r)
    ensures AllNoSpace(parts) ==> AllNoSpace(r)
    ensures (r == []) <==> (forall k :: 0 <= k < |parts| ==> parts[k] == [])
  {
    if parts == [] then []
    else if parts[0] == [] then NonEmpty(parts[1..])
    else [parts[0]] + NonEmpty(parts[1..])
  }
  /** A string is kept exactly when it is one of the parts and not empty. */
  lemma {:induction false} NonEmptyMembers(parts: seq<string>, x: string)
    ensures x in NonEmpty(parts) <==> x in parts && x != []
  {
    if parts != [] {
      NonEmptyMembers(parts[1..], x);
      assert parts == [parts[0]] + parts[1..];
    }
  }

  /** Filtering a concatenation filters each side and keeps them in order. */
  lemma {:induction false} NonEmptyAppend(a: seq<string>, b: seq<string>)
    ensures NonEmpty(a + b) == NonEmpty(a) + NonEmpty(b)
  {
    if a == [] {
      assert a + b == b;
    } else {
      assert (a + b)[0] == a[0] && (a + b)[1..] == a[1..] + b;
      NonEmptyAppend(a[1..], b);
    }
  }

  /** The non-empty parts of three strings, in their order. */
  lemma NonEmptyThree(a: string, b: string, c: string)
    ensures NonEmpty([a, b, c])
            == (if a == "" then [] else [a]) + (if b == "" then [] else [b]) + (if c == "" then [] else [c])
  {
    assert [a, b, c] == [a] + ([b] + [c]);
    NonEmptyAppend([a], [b] + [c]);
    NonEmptyAppend([b], [c]);
    NonEmptyOne(a);
    NonEmptyOne(b);
    NonEmptyOne(c);
  }

  lemma NonEmptyOne(x: string)
    ensures NonEmpty([x]) == if x == "" then [] else [x]
  {
    assert [x][1..] == [];
  }

  /** `" ".join(parts)` */
  function JoinSpace(parts: seq<string>): (r: string)
    decreases |parts|
  {
    if parts == [] then ""
    else if |parts| == 1 then parts[0]
    else parts[0] + " " + JoinSpace(parts[1..])
  }

  /** Joining non-empty strings whose ends are not whitespace gives a string
      whose ends are not whitespace, which begins with the first part and
      ends with the last. */
  lemma {:induction false} JoinSpaceTrimmed(parts: seq<string>)
    requires AllTrimmed(parts)
    requires forall k :: 0 <= k < |parts| ==> parts[k] != []
    ensures Trimmed(JoinSpace(parts))
    ensures parts != [] ==> JoinSpace(parts) != [] && JoinSpace(parts)[0] == parts[0][0]
    ensures parts != [] ==> var j := JoinSpace(parts); j[|j| - 1] == parts[|parts| - 1][|parts[|parts| - 1]| - 1]
  {
    if |parts| > 1 {
      JoinSpaceTrimmed(parts[1..]);
      var rest := JoinSpace(parts[1..]);
      var j := parts[0] + " " + rest;
      assert j[0] == parts[0][0];
      assert j[|j| - 1] == rest[|rest| - 1];
    }
  }

  /** `" ".join([p for p in parts if p]).strip()` on parts whose ends are
      not whitespace: the final `strip()` changes nothing. */
  lemma JoinNonEmptyTrimmed(parts: seq<string>)
    requires AllTrimmed(parts)
    ensures Trimmed(JoinSpace(NonEmpty(parts)))
    ensures Strip(JoinSpace(NonEmpty(parts))) == JoinSpace(NonEmpty(parts))
  {
    JoinSpaceTrimmed(NonEmpty(parts));
    StripTrimmed(JoinSpace(NonEmpty(parts)), Whitespace);
  }

  /** Three parts join to nothing exactly when all three are empty. */
  lemma JoinThreeIsEmpty(a: string, b: string, c: string)
    ensures JoinSpace(NonEmpty([a, b, c])) == "" <==> a == "" && b == "" && c == ""
  {
    var parts := [a, b, c];
    JoinNonEmptyIsEmpty(parts);
    assert parts[0] == a && parts[1] == b && parts[2] == c;
  }

  /** Joining the non-empty parts gives the empty string exactly when every
      part is empty. */
  lemma JoinNonEmptyIsEmpty(parts: seq<string>)
    ensures JoinSpace(NonEmpty(parts)) == "" <==> forall k :: 0 <= k < |parts| ==> parts[k] == ""
  {
  }

  /** An empty middle part is dropped: the outer parts are joined by one
      space. */
  lemma JoinSkipsEmptyMiddle(a: string, b: string, c: string)
    requires a != "" && b == "" && c != ""
    ensures JoinSpace(NonEmpty([a, b, c])) == a + " " + c
  {
    var parts := [a, b, c];
    assert parts[1..] == [b, c] && parts[1..][1..] == [c];
    assert NonEmpty([c]) == [c] by { assert [c][1..] == []; }
    assert NonEmpty(parts) == [a, c];
    assert [a, c][1..] == [c];
  }

  /** The index of the first space in `s`, or `|s|` when there is none. */
  function FirstSpace(s: string): (k: nat)
    ensures k <= |s|
    ensures forall m :: 0 <= m < k ==> s[m] != ' '
    ensures k < |s| ==> s[k] == ' '
  {
    if s == [] then 0 else if s[0] == ' ' then 0 else 1 + FirstSpace(s[1..])
  }

  /** `s.split(" ")`: the pieces between single spaces, empty pieces included. */
  function SplitSpace(s: string): (r: seq<string>)
    ensures r != []
    decreases |s|
  {
    var k := FirstSpace(s);
    if k == |s| then [s] else [s[..k]] + SplitSpace(s[k + 1..])
  }

  /** Splitting on single spaces undoes joining with single spaces, as long as
      the joined strings are non-empty and hold no space of their own. */
  lemma {:induction false} SplitJoinSpace(parts: seq<string>)
    requires parts != []
    requires AllNoSpace(parts)
    ensures SplitSpace(JoinSpace(parts)) == parts
  {
    if |parts| == 1 {
      assert FirstSpace(parts[0]) == |parts[0]|;
    } else {
      var s := parts[0] + " " + JoinSpace(parts[1..]);
      var k := |parts[0]|;
      assert s[k] == ' ';
      assert forall m :: 0 <= m < k ==> s[m] == parts[0][m];
      assert FirstSpace(s) == k;
      assert s[..k] == parts[0];
      assert s[k + 1..] == JoinSpace(parts[1..]);
      SplitJoinSpace(parts[1..]);
      assert [parts[0]] + parts[1..] == parts;
    }
  }

  /** Splitting on single spaces recovers the non-empty parts that were
      joined, when no part holds a space and at least one is non-empty. */
  lemma SplitJoinNonEmpty(parts: seq<string>)
    requires AllNoSpace(parts)
    requires JoinSpace(NonEmpty(parts)) != ""
    ensures SplitSpace(JoinSpace(NonEmpty(parts))) == NonEmpty(parts)
  {
    SplitJoinSpace(NonEmpty(parts));
  }
}
