/**
 NUL-terminated strings and the tokenizer path resolution rests on. A token is a maximal run
 of characters that are not delimiters; string_tokenize cuts the tokens out of its buffer one
 call at a time, remembering its place in a static cursor.
 */
module PathStrings {

  // ---------------------------------------------------------------------------
  // Segments
  // ---------------------------------------------------------------------------

  /** How many characters precede the first delimiter. */
  function RunLength(s: string, delims: string): (n: nat)
    ensures n <= |s|
    ensures forall k :: 0 <= k < n ==> s[k] !in delims
    ensures n < |s| ==> s[n] in delims
  {
    if s == "" || s[0] in delims then 0 else 1 + RunLength(s[1..], delims)
  }

  function Segments(s: string, delims: string): (ws: seq<string>)
    decreases |s|
  {
    if s == "" then []
    else if s[0] in delims then Segments(s[1..], delims)
    else
      var n := RunLength(s, delims);
      [s[..n]] + Segments(s[n..], delims)
  }

  /** [i, j) is a non-empty run without delimiters that cannot be extended on either side. */
  predicate MaximalRun(s: string, delims: string, i: int, j: int) {
    && 0 <= i < j <= |s|
    && (forall k :: i <= k < j ==> s[k] !in delims)
    && (i == 0 || s[i - 1] in delims)
    && (j == |s| || s[j] in delims)
  }

  /** The places of the segments, left to right. */
  function Places(s: string, delims: string, from: nat): (ps: seq<(nat, nat)>)
    requires from <= |s|
    decreases |s| - from
  {
    if from == |s| then []
    else if s[from] in delims then Places(s, delims, from + 1)
    else
      var j := from + RunLength(s[from..], delims);
      [(from, j)] + Places(s, delims, j)
  }

  ghost predicate Reads(s: string, ps: seq<(nat, nat)>, ws: seq<string>) {
    |ws| == |ps| && forall m :: 0 <= m < |ps| ==> ps[m].0 <= ps[m].1 <= |s| && ws[m] == s[ps[m].0..ps[m].1]
  }

  /** Segments are the contents of the places, in order. */
  lemma {:induction false} SegmentsAreAtPlaces(s: string, delims: string, from: nat)
    requires from <= |s|
    ensures Reads(s, Places(s, delims, from), Segments(s[from..], delims))
    decreases |s| - from
  {
    var t := s[from..];
    if from == |s| {
    } else if s[from] in delims {
      SegmentsAreAtPlaces(s, delims, from + 1);
      assert t[0] == s[from] && t[1..] == s[from + 1..];
    } else {
      var n := RunLength(t, delims);
      assert t[0] == s[from] && t[n..] == s[from + n..] && t[..n] == s[from..from + n];
      SegmentsAreAtPlaces(s, delims, from + n);
      ReadsCons(s, (from, from + n), Places(s, delims, from + n), Segments(t[n..], delims));
    }
  }

  lemma ReadsCons(s: string, p: (nat, nat), ps: seq<(nat, nat)>, ws: seq<string>)
    requires Reads(s, ps, ws) && p.0 <= p.1 <= |s|
    ensures Reads(s, [p] + ps, [s[p.0..p.1]] + ws)
  {
  }

  ghost predicate AreRuns(ps: seq<(nat, nat)>, s: string, delims: string, from: nat) {
    forall m :: 0 <= m < |ps| ==> from <= ps[m].0 && MaximalRun(s, delims, ps[m].0, ps[m].1)
  }

  ghost predicate InOrder(ps: seq<(nat, nat)>) {
    forall m, n :: 0 <= m < n < |ps| ==> ps[m].1 < ps[n].0
  }

  ghost predicate AllRuns(ps: seq<(nat, nat)>, s: string, delims: string, from: nat) {
    forall i: nat, j: nat :: from <= i && MaximalRun(s, delims, i, j) ==> (i, j) in ps
  }

  /** ps are the maximal runs from `from` on, each once and in order. */
  ghost predicate RunsFrom(ps: seq<(nat, nat)>, s: string, delims: string, from: nat) {
    AreRuns(ps, s, delims, from) && InOrder(ps) && AllRuns(ps, s, delims, from)
  }

  lemma NoRuns(s: string, delims: string, from: nat, none: seq<(nat, nat)>)
    requires from == |s| && none == []
    ensures RunsFrom(none, s, delims, from)
  {
  }

  lemma PlacesSkip(s: string, delims: string, from: nat, next: nat)
    requires from < |s| && s[from] in delims && next == from + 1
    ensures Places(s, delims, from) == Places(s, delims, next)
  {
  }

  lemma PlacesRun(s: string, delims: string, from: nat, e: nat)
    requires from < |s| && s[from] !in delims && e == from + RunLength(s[from..], delims) <= |s|
    ensures Places(s, delims, from) == [(from, e)] + Places(s, delims, e)
  {
  }

  /** Tokenizing yields exactly the maximal delimiter-free runs, each once and in order. */
  lemma {:induction false} PlacesAreTheMaximalRuns(s: string, delims: string, from: nat)
    requires from <= |s| && (from == 0 || s[from - 1] in delims || from == |s| || s[from] in delims)
    ensures RunsFrom(Places(s, delims, from), s, delims, from)
    decreases |s| - from
  {
    if from == |s| {
      NoRuns(s, delims, from, Places(s, delims, from));
    } else if s[from] in delims {
      PlacesAreTheMaximalRuns(s, delims, from + 1);
      SkipDelimiter(s, delims, from, from + 1, Places(s, delims, from + 1));
      PlacesSkip(s, delims, from, from + 1);
    } else {
      var e := RunEnd(s, delims, from);
      PlacesAreTheMaximalRuns(s, delims, e);
      FirstRun(s, delims, from, e, Places(s, delims, e));
      PlacesRun(s, delims, from, e);
    }
  }

  lemma SkipDelimiter(s: string, delims: string, from: nat, next: nat, ps: seq<(nat, nat)>)
    requires from < |s| && s[from] in delims && next == from + 1 && RunsFrom(ps, s, delims, next)
    ensures RunsFrom(ps, s, delims, from)
  {
    forall i: nat, j: nat | from <= i && MaximalRun(s, delims, i, j) ensures (i, j) in ps {
      assert i != from;
    }
  }

  lemma RunEnd(s: string, delims: string, from: nat) returns (e: nat)
    requires from < |s| && s[from] !in delims && (from == 0 || s[from - 1] in delims)
    ensures e == from + RunLength(s[from..], delims) && MaximalRun(s, delims, from, e)
  {
    var t := s[from..];
    e := from + RunLength(t, delims);
    assert t[0] == s[from];
    forall k | from <= k < e ensures s[k] !in delims { assert s[k] == t[k - from]; }
  }

  lemma FirstRun(s: string, delims: string, from: nat, e: nat, rest: seq<(nat, nat)>)
    requires MaximalRun(s, delims, from, e) && RunsFrom(rest, s, delims, e)
    ensures RunsFrom([(from, e)] + rest, s, delims, from)
  {
    var ps := [(from, e)] + rest;
    forall m | 0 <= m < |rest| ensures rest[m].0 > e {
      assert MaximalRun(s, delims, rest[m].0, rest[m].1);
    }
    forall i: nat, j: nat | from <= i && MaximalRun(s, delims, i, j) ensures (i, j) in ps {
      if i < e {
        OnlyRun(s, delims, from, e, i, j);
        assert (i, j) == ps[0];
      } else {
        assert (i, j) in rest;
      }
    }
  }

  /** Two maximal runs that overlap are the same. */
  lemma OnlyRun(s: string, delims: string, from: nat, e: nat, i: nat, j: nat)
    requires MaximalRun(s, delims, from, e) && MaximalRun(s, delims, i, j) && from <= i < e
    ensures i == from && j == e
  {
  }

  /** Cutting at a delimiter cuts the list of segments. */
  lemma {:induction false} SegmentsOfConcat(a: string, c: char, b: string, delims: string)
    requires c in delims
    ensures Segments(a + [c] + b, delims) == Segments(a, delims) + Segments(b, delims)
    decreases |a|
  {
    var s := a + [c] + b;
    if a == "" {
      assert s[1..] == b;
    } else if a[0] in delims {
      assert s[1..] == a[1..] + [c] + b;
      SegmentsOfConcat(a[1..], c, b, delims);
    } else {
      var n := RunLength(a, delims);
      RunStops(a, [c] + b, delims);
      assert a + ([c] + b) == s;
      assert s[..n] == a[..n] && s[n..] == a[n..] + [c] + b;
      SegmentsOfConcat(a[n..], c, b, delims);
      assert [a[..n]] + (Segments(a[n..], delims) + Segments(b, delims)) ==
          [a[..n]] + Segments(a[n..], delims) + Segments(b, delims);
    }
  }

  lemma {:induction false} RunStops(a: string, b: string, delims: string)
    requires b != "" && b[0] in delims
    ensures RunLength(a + b, delims) == RunLength(a, delims)
  {
    if a == "" {
      assert a + b == b;
    } else if a[0] !in delims {
      assert (a + b)[1..] == a[1..] + b;
      RunStops(a[1..], b, delims);
    }
  }

  /** A non-empty word without delimiters is its own only segment. */
  lemma SegmentsOfWord(w: string, delims: string)
    requires w != "" && forall k :: 0 <= k < |w| ==> w[k] !in delims
    ensures Segments(w, delims) == [w]
  {
    assert RunLength(w, delims) == |w|;
    assert w[..|w|] == w && w[|w|..] == "";
  }

  // ---------------------------------------------------------------------------
  // C strings
  // ---------------------------------------------------------------------------

  const NUL: char := '\0'

  /** The string that starts at index i: everything up to the next NUL. */
  function CString(buf: seq<char>, i: nat): (s: string)
    decreases |buf| - i
  {
    if i >= |buf| || buf[i] == NUL then "" else [buf[i]] + CString(buf, i + 1)
  }

  /** There is a NUL at or after i. */
  predicate Terminated(buf: seq<char>, i: nat) {
    i + |CString(buf, i)| < |buf|
  }

  lemma {:induction false} CStringShape(buf: seq<char>, i: nat)
    ensures
      var s := CString(buf, i);
      && (i <= |buf| ==> i + |s| <= |buf| && s == buf[i..i + |s|])
      && NUL !in s
      && (i + |s| < |buf| ==> buf[i + |s|] == NUL)
    decreases |buf| - i
  {
    if i < |buf| && buf[i] != NUL { CStringShape(buf, i + 1); }
  }

  /** A stretch without NUL is a prefix of the string; the rest follows it. */
  lemma {:induction false} CStringSplit(buf: seq<char>, i: nat, j: nat)
    requires i <= j <= |buf| && NUL !in buf[i..j]
    ensures CString(buf, i) == buf[i..j] + CString(buf, j)
    decreases j - i
  {
    if i < j {
      assert buf[i..j][0] == buf[i];
      assert buf[i..j][1..] == buf[i + 1..j];
      CStringSplit(buf, i + 1, j);
      assert buf[i..j] == [buf[i]] + buf[i + 1..j];
    }
  }

  /** Strings that start after a change do not see it. */
  lemma {:induction false} CStringAfter(buf: seq<char>, other: seq<char>, i: nat)
    requires |buf| == |other| && forall k :: i <= k < |buf| ==> buf[k] == other[k]
    ensures CString(buf, i) == CString(other, i)
    decreases |buf| - i
  {
    if i < |buf| { CStringAfter(buf, other, i + 1); }
  }

  method IsDelimiter(c: char, delims: string) returns (r: bool)
    ensures r <==> c in delims
  {
    r := false;
    var d := 0;
    while d < |delims|
      invariant 0 <= d <= |delims| && c !in delims[..d]
    {
      if c == delims[d] { return true; }
      d := d + 1;
    }
  }

  /** The difference at the first place where two strings part; an ended string counts as NUL there. */
  function Order(s: string, t: string): int {
    if s == "" || t == "" || s[0] != t[0] then
      (if s == "" then 0 else s[0] as int) - (if t == "" then 0 else t[0] as int)
    else Order(s[1..], t[1..])
  }

  /** It is zero exactly for equal strings. */
  lemma {:induction false} OrderZeroIff(s: string, t: string)
    requires NUL !in s && NUL !in t
    ensures Order(s, t) == 0 <==> s == t
    decreases |s|
  {
    if s != "" && t != "" && s[0] == t[0] {
      OrderZeroIff(s[1..], t[1..]);
      assert s == [s[0]] + s[1..] && t == [t[0]] + t[1..];
    }
  }

  /** A common prefix does not matter. */
  lemma {:induction false} OrderSkip(s: string, t: string, k: nat)
    requires k <= |s| && k <= |t| && s[..k] == t[..k]
    ensures Order(s, t) == Order(s[k..], t[k..])
    decreases k
  {
    if k > 0 {
      assert s[0] == s[..k][0] && t[0] == t[..k][0];
      assert s[1..][..k - 1] == s[..k][1..] && t[1..][..k - 1] == t[..k][1..];
      OrderSkip(s[1..], t[1..], k - 1);
      assert s[1..][k - 1..] == s[k..] && t[1..][k - 1..] == t[k..];
    } else {
      assert s[0..] == s && t[0..] == t;
    }
  }

  /** string_compare: the order of the two strings, so zero exactly when they are equal. */
  method Compare(a: array<char>, i: nat, b: array<char>, j: nat) returns (r: int)
    requires Terminated(a[..], i) && Terminated(b[..], j)
    ensures r == Order(CString(a[..], i), CString(b[..], j))
    ensures r == 0 <==> CString(a[..], i) == CString(b[..], j)
  {
    var k := 0;
    ghost var s, t := CString(a[..], i), CString(b[..], j);
    CStringShape(a[..], i);
    CStringShape(b[..], j);
    while a[i + k] != NUL && b[j + k] != NUL && a[i + k] == b[j + k]
      invariant k <= |s| && k <= |t| && s[..k] == t[..k]
      decreases |s| - k
    {
      assert s[k] == a[i + k] && t[k] == b[j + k];
      k := k + 1;
    }
    assert k < |s| ==> s[k] == a[i + k] && s[k] != NUL;
    assert k < |t| ==> t[k] == b[j + k] && t[k] != NUL;
    r := (a[i + k] as int) - (b[j + k] as int);
    OrderSkip(s, t, k);
    OrderZeroIff(s, t);
  }

  /** string_copy. */
  method Copy(dest: array<char>, src: string)
    requires NUL !in src && |src| < dest.Length
    modifies dest
    ensures CString(dest[..], 0) == src
  {
    PutAt(dest, 0, src);
    CStringSplit(dest[..], 0, |src|);
    assert dest[..][0..|src|] == src;
  }

  /** string_concat: src goes where the NUL of dest was. */
  method Concat(dest: array<char>, src: string)
    requires Terminated(dest[..], 0) && NUL !in src && |CString(dest[..], 0)| + |src| < dest.Length
    modifies dest
    ensures CString(dest[..], 0) == old(CString(dest[..], 0)) + src
  {
    ghost var s := CString(dest[..], 0);
    CStringShape(dest[..], 0);
    var n := 0;
    while dest[n] != NUL
      invariant 0 <= n <= |s|
      decreases |s| - n
    {
      assert s[n] == dest[n];
      n := n + 1;
    }
    assert n == |s|;
    assert dest[..n] == s;
    PutAt(dest, n, src);
    assert dest[..][0..n + |src|] == s + src;
    CStringSplit(dest[..], 0, n + |src|);
  }

  /** The copy loop of both: the characters, then a NUL. */
  method PutAt(dest: array<char>, at: nat, src: string)
    requires at + |src| < dest.Length
    modifies dest
    ensures dest[..at] == old(dest[..at]) && dest[at..at + |src|] == src && dest[at + |src|] == NUL
  {
    var k := 0;
    while k < |src|
      invariant 0 <= k <= |src| && dest[..at] == old(dest[..at]) && dest[at..at + k] == src[..k]
    {
      dest[at + k] := src[k];
      k := k + 1;
    }
    dest[at + k] := NUL;
  }

  /** The string a buffer holds. */
  method ReadString(buf: array<char>) returns (s: string)
    ensures s == CString(buf[..], 0)
  {
    s := "";
    var k := 0;
    while k < buf.Length && buf[k] != NUL
      invariant 0 <= k <= buf.Length && CString(buf[..], 0) == s + CString(buf[..], k)
    {
      s := s + [buf[k]];
      k := k + 1;
    }
  }

  class Tokenizer {
    const buf: array<char>
    /** The static cursor; -1 is the null pointer. */
    var last: int

    /** A private copy of the text, as vfs_resolve_path makes before it tokenizes. */
    constructor (text: string)
      requires NUL !in text
      ensures fresh(buf) && Ready() && Pending() == text
    {
      buf := new char[|text| + 1](k requires 0 <= k <= |text| => if k < |text| then text[k] else NUL);
      last := 0;
      new;
      assert buf[..|text|] == text;
      CStringSplit(buf[..], 0, |text|);
      assert buf[..][0..|text|] == text;
    }

    /** Continuing from the cursor is safe. */
    ghost predicate Ready()
      reads this, buf
    {
      last >= 0 ==> last < buf.Length && Terminated(buf[..], last)
    }

    /** The text still to be tokenized. */
    ghost function Pending(): string
      reads this, buf
    {
      if last < 0 then "" else CString(buf[..], last)
    }

    /** `token` is the first of the segments ws, and the others are still to come; -1 if there are none. */
    ghost predicate Holds(token: int, ws: seq<string>, delims: string)
      reads this, buf
    {
      && Ready()
      && if ws == [] then token == -1 && Segments(Pending(), delims) == []
         else 0 <= token < buf.Length && CString(buf[..], token) == ws[0] && Segments(Pending(), delims) == ws[1..]
    }

    /** The leading delimiters are skipped. */
    method Skip(from: nat, delims: string) returns (i: nat)
      requires from < buf.Length && Terminated(buf[..], from)
      ensures from <= i < buf.Length && Terminated(buf[..], i)
      ensures Segments(CString(buf[..], i), delims) == Segments(CString(buf[..], from), delims)
      ensures buf[i] != NUL ==> buf[i] !in delims
    {
      i := from;
      while buf[i] != NUL
        invariant from <= i < buf.Length && Terminated(buf[..], i)
        invariant Segments(CString(buf[..], i), delims) == Segments(CString(buf[..], from), delims)
        decreases buf.Length - i
      {
        var d := IsDelimiter(buf[i], delims);
        if !d { return; }
        assert CString(buf[..], i)[1..] == CString(buf[..], i + 1);
        i := i + 1;
      }
    }

    /** The token at i, read up to its NUL. */
    method Text(i: nat) returns (s: string)
      requires i < buf.Length
      ensures s == CString(buf[..], i)
    {
      s := "";
      var k := i;
      while k < buf.Length && buf[k] != NUL
        invariant i <= k <= buf.Length && CString(buf[..], i) == s + CString(buf[..], k)
      {
        s := s + [buf[k]];
        k := k + 1;
      }
    }

    /** One call of string_tokenize with a null argument: the next token, or -1. */
    method Next(delims: string) returns (token: int)
      requires Ready()
      modifies this, buf
      ensures Holds(token, old(Segments(Pending(), delims)), delims)
    {
      if last < 0 || buf[last] == NUL { return -1; }
      var i := Skip(last, delims);
      if buf[i] == NUL {
        last := -1;
        return -1;
      }
      token := i;
      CutToken(i, delims);
    }

    /** Find the end of the token that starts at i, and close it with a NUL. */
    method CutToken(i: nat, delims: string)
      requires i < buf.Length && Terminated(buf[..], i) && buf[i] != NUL && buf[i] !in delims
      modifies this, buf
      ensures Ready()
      ensures
        var ws := old(Segments(CString(buf[..], i), delims));
        ws != [] && CString(buf[..], i) == ws[0] && Segments(Pending(), delims) == ws[1..]
    {
      ghost var was := buf[..];
      ghost var s := CString(was, i);
      CStringShape(was, i);
      var e := i;
      while buf[e] != NUL
        invariant i <= e <= i + |s| && buf[..] == was
        invariant forall k :: i <= k < e ==> was[k] !in delims
        decreases i + |s| - e
      {
        var d := IsDelimiter(buf[e], delims);
        if d {
          CutAt(was, i, e, delims);
          buf[e] := NUL;
          assert buf[..] == was[e := NUL];
          last := e + 1;
          return;
        }
        e := e + 1;
      }
      WholeToken(was, i, e, delims);
      last := -1;
    }
  }

  /** A token that runs to the end of the text. */
  lemma WholeToken(was: seq<char>, i: nat, e: nat, delims: string)
    requires Terminated(was, i) && i < |was| && was[i] != NUL && i <= e < |was| && e <= i + |CString(was, i)|
    requires was[e] == NUL
    requires forall k :: i <= k < e ==> was[k] !in delims
    ensures Segments(CString(was, i), delims) == [CString(was, i)]
  {
    var s := CString(was, i);
    CStringShape(was, i);
    assert forall k :: 0 <= k < |s| ==> s[k] == was[i + k];
    SegmentsOfWord(s, delims);
  }

  /** What overwriting the delimiter at e does to the token before it and the text after it. */
  lemma CutAt(was: seq<char>, i: nat, e: nat, delims: string)
    requires i < e < i + |CString(was, i)| && Terminated(was, i)
    requires was[e] in delims && forall k :: i <= k < e ==> was[k] !in delims
    ensures
      var ws := Segments(CString(was, i), delims);
      var now := was[e := NUL];
      && ws != [] && CString(now, i) == ws[0] && Segments(CString(now, e + 1), delims) == ws[1..]
      && e + 1 < |now| && Terminated(now, e + 1)
  {
    var token, rest := was[i..e], CString(was, e + 1);
    TokenThenRest(was, i, e, token, rest);
    assert forall k :: 0 <= k < |token| ==> token[k] == was[i + k];
    HeadSegment(token, was[e], rest, delims);
    TokenClosed(was, was[e := NUL], i, e, token);
    CStringAfter(was, was[e := NUL], e + 1);
  }

  lemma HeadSegment(token: string, c: char, rest: string, delims: string)
    requires c in delims && token != "" && forall k :: 0 <= k < |token| ==> token[k] !in delims
    ensures
      var ws := Segments(token + [c] + rest, delims);
      ws != [] && ws[0] == token && ws[1..] == Segments(rest, delims)
  {
    SegmentsOfConcat(token, c, rest, delims);
    SegmentsOfWord(token, delims);
  }

  lemma TokenThenRest(was: seq<char>, i: nat, e: nat, token: string, rest: string)
    requires i < e < i + |CString(was, i)| && Terminated(was, i) && token == was[i..e] && rest == CString(was, e + 1)
    ensures NUL !in token && CString(was, i) == token + [was[e]] + rest && e + 1 + |rest| < |was|
  {
    var s := CString(was, i);
    CStringShape(was, i);
    var cut := was[i..e + 1];
    assert cut == s[..e + 1 - i];
    assert forall k :: 0 <= k < |cut| ==> cut[k] == s[k];
    CStringSplit(was, i, e + 1);
    assert |cut| == |token| + 1;
    assert forall k :: 0 <= k < |token| ==> token[k] == cut[k];
    assert cut == token + [was[e]];
  }

  lemma TokenClosed(was: seq<char>, now: seq<char>, i: nat, e: nat, token: string)
    requires i < e < |was| && token == was[i..e] && NUL !in token && now == was[e := NUL]
    ensures CString(now, i) == token
  {
    assert now[i..e] == token;
    CStringSplit(now, i, e);
    assert CString(now, e) == "";
    assert token + "" == token;
  }
}
