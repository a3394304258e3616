/**
 The Internet checksum (sections 1 and 2 of RFC 1071): 16-bit words are summed in 32 bits, the
 carries are folded back in until none is left, and the result is complemented.
 */
module Checksum {
  import opened Arithmetic

  const BASE: nat := 0x1_0000
  const MODULUS: nat := 0xFFFF
  const UINT32_SIZE: nat := 0x1_0000_0000
  /** As many words as can be summed without overflow. */
  const MAX_WORDS: nat := 0x1_0001

  type Byte = b: int | 0 <= b < 256

  function Word(lo: Byte, hi: Byte): (w: nat)
    ensures w < BASE
  {
    lo + 256 * hi
  }

  /** The 16-bit words of a buffer, low byte first; a last odd byte stands alone. */
  function Words(data: seq<Byte>): (ws: seq<nat>)
    ensures forall i :: 0 <= i < |ws| ==> ws[i] < BASE
    ensures |ws| == (|data| + 1) / 2
  {
    if data == [] then [] else if |data| == 1 then [data[0]] else [Word(data[0], data[1])] + Words(data[2..])
  }

  /** Word by word: two neighbouring bytes, the first one low; the last byte of an odd number is its own word. */
  lemma {:induction false} WordsAt(data: seq<Byte>, i: nat)
    requires 2 * i < |data|
    ensures i < |Words(data)|
    ensures Words(data)[i] == data[2 * i] as int + if 2 * i + 1 < |data| then 256 * (data[2 * i + 1] as int) else 0
    decreases |data|
  {
    if i > 0 { WordsAt(data[2..], i - 1); }
  }

  function Sum(ws: seq<nat>): nat {
    if ws == [] then 0 else ws[0] + Sum(ws[1..])
  }

  /** The folding loop. */
  function Fold(s: nat): (r: nat)
    ensures r < BASE && (r == 0 <==> s == 0)
  {
    if s < BASE then s else Fold(s % BASE + s / BASE)
  }

  /** Folding keeps the residue modulo 2^16 - 1. */
  lemma {:induction false} FoldKeepsResidue(s: nat)
    ensures Fold(s) % MODULUS == s % MODULUS
    decreases s
  {
    if s >= BASE {
      var lo, hi := s % BASE, s / BASE;
      FoldKeepsResidue(lo + hi);
      assert s == (lo + hi) + MODULUS * hi;
      AddMultiple(lo + hi, hi);
    }
  }

  lemma AddMultiple(x: nat, k: nat)
    ensures (x + MODULUS * k) % MODULUS == x % MODULUS
    decreases k
  {
    if k > 0 {
      AddMultiple(x, k - 1);
      assert x + MODULUS * k == (x + MODULUS * (k - 1)) + MODULUS;
    }
  }

  /** The folded sum is determined by the residue: 65535 stands for a non-zero multiple, 0 for an empty sum. */
  lemma FoldIsResidue(s: nat)
    ensures Fold(s) == if s == 0 then 0 else if s % MODULUS == 0 then MODULUS else s % MODULUS
  {
    FoldKeepsResidue(s);
  }

  function Complement(r: nat): nat
    requires r < BASE
  {
    MODULUS - r
  }

  function Checksum(ws: seq<nat>): (c: nat)
    ensures c < BASE
  {
    Complement(Fold(Sum(ws) % UINT32_SIZE))
  }

  lemma {:induction false} SumBound(ws: seq<nat>)
    requires forall i :: 0 <= i < |ws| ==> ws[i] < BASE
    ensures Sum(ws) <= MODULUS * |ws|
    decreases |ws|
  {
    if ws != [] { SumBound(ws[1..]); }
  }

  lemma {:induction false} SumUpdate(ws: seq<nat>, k: nat, c: nat)
    requires k < |ws|
    ensures Sum(ws[k := c]) == Sum(ws) - ws[k] + c
    decreases |ws|
  {
    if k > 0 {
      assert ws[k := c][1..] == ws[1..][k - 1 := c];
      SumUpdate(ws[1..], k - 1, c);
    } else {
      assert ws[k := c][1..] == ws[1..];
    }
  }

  /** That many words cannot overflow the 32-bit sum. */
  lemma NoOverflow(ws: seq<nat>)
    requires |ws| <= MAX_WORDS && forall i :: 0 <= i < |ws| ==> ws[i] < BASE
    ensures Sum(ws) % UINT32_SIZE == Sum(ws)
  {
    SumBound(ws);
    assert MODULUS * MAX_WORDS == UINT32_SIZE - 1;
  }

  /** Storing the checksum in a zeroed field makes the recomputed checksum 0, however long the buffer. */
  lemma StoredChecksumVerifies(ws: seq<nat>, k: nat)
    requires k < |ws| && ws[k] == 0
    ensures Checksum(ws[k := Checksum(ws)]) == 0
  {
    SumUpdate(ws, k, Checksum(ws));
    StoredSum(Sum(ws));
  }

  lemma StoredSum(sum: nat)
    ensures Fold((sum + (MODULUS - Fold(sum % UINT32_SIZE))) % UINT32_SIZE) == MODULUS
  {
    var q, low := sum / UINT32_SIZE, sum % UINT32_SIZE;
    var c := MODULUS - Fold(low);
    StoringFits(low);
    LowPart(sum, q, low, c);
    FoldAfterStore(low);
  }

  lemma LowPart(sum: nat, q: nat, low: nat, c: nat)
    requires sum == UINT32_SIZE * q + low && low + c < UINT32_SIZE
    ensures (sum + c) % UINT32_SIZE == low + c
  {
    DivModUnique(sum + c, UINT32_SIZE, q, low + c);
  }

  /** Writing the two bytes of a word into the buffer replaces that word. */
  lemma {:induction false} StoreWord(data: seq<Byte>, k: nat, lo: Byte, hi: Byte)
    requires 2 * k + 1 < |data|
    ensures Words(data[2 * k := lo][2 * k + 1 := hi]) == Words(data)[k := Word(lo, hi)]
    decreases k
  {
    var after := data[2 * k := lo][2 * k + 1 := hi];
    if k == 0 {
      assert after[2..] == data[2..];
    } else {
      assert after[2..] == data[2..][2 * (k - 1) := lo][2 * (k - 1) + 1 := hi];
      StoreWord(data[2..], k - 1, lo, hi);
    }
  }

  lemma {:induction false} ZeroWord(data: seq<Byte>, k: nat)
    requires 2 * k + 1 < |data| && data[2 * k] == data[2 * k + 1] == 0
    ensures Words(data)[k] == 0
    decreases k
  {
    if k > 0 { ZeroWord(data[2..], k - 1); }
  }

  /** The same on buffers, of even or odd length: the checksum goes into two zeroed bytes, low byte first. */
  lemma StoredInBufferVerifies(data: seq<Byte>, k: nat, lo: Byte, hi: Byte)
    requires 2 * k + 1 < |data| && data[2 * k] == data[2 * k + 1] == 0 && Word(lo, hi) == Checksum(Words(data))
    ensures Checksum(Words(data[2 * k := lo][2 * k + 1 := hi])) == 0
  {
    StoreWord(data, k, lo, hi);
    ZeroWord(data, k);
    StoredChecksumVerifies(Words(data), k);
  }

  /**
   The wrapped sum and its checksum add up to a multiple of 2^16 - 1, and 2^32 - 1 is one: the
   addition cannot overflow.
   */
  lemma StoringFits(low: nat)
    requires low < UINT32_SIZE
    ensures low + (MODULUS - Fold(low)) < UINT32_SIZE
  {
    FoldIsResidue(low);
    var q, m := low / MODULUS, low % MODULUS;
    assert low == MODULUS * q + m && q <= MAX_WORDS;
    assert MODULUS * MAX_WORDS == UINT32_SIZE - 1;
  }

  lemma FoldAfterStore(s: nat)
    ensures Fold(s + (MODULUS - Fold(s))) == MODULUS
  {
    FoldKeepsResidue(s);
    MultipleAfterStore(s, Fold(s));
    FoldIsResidue(s + (MODULUS - Fold(s)));
  }

  lemma MultipleAfterStore(s: nat, r: nat)
    requires r < BASE && r % MODULUS == s % MODULUS
    ensures (s + (MODULUS - r)) % MODULUS == 0
  {
    var q := s / MODULUS;
    var m := s % MODULUS;
    assert s == MODULUS * q + m;
    if r == MODULUS {
      assert r % MODULUS == 0;
      AddMultiple(0, q);
    } else {
      assert r == m;
      assert s + (MODULUS - r) == MODULUS * q + MODULUS;
      AddMultiple(MODULUS, q);
    }
  }

  /**
   A buffer passes the check exactly when its wrapped sum is a non-zero multiple of 2^16 - 1;
   short buffers do not wrap.
   */
  lemma PassesIff(ws: seq<nat>)
    ensures
      var low := Sum(ws) % UINT32_SIZE;
      && (Checksum(ws) == 0 <==> low != 0 && low % MODULUS == 0)
      && (|ws| <= MAX_WORDS && (forall i :: 0 <= i < |ws| ==> ws[i] < BASE) ==> low == Sum(ws))
  {
    FoldIsResidue(Sum(ws) % UINT32_SIZE);
    if |ws| <= MAX_WORDS && forall i :: 0 <= i < |ws| ==> ws[i] < BASE { NoOverflow(ws); }
  }

  // ---------------------------------------------------------------------------
  // Buffers whose sum does not fit 32 bits
  // ---------------------------------------------------------------------------

  /** More words than a 32-bit length can count. */
  const WORDS_LIMIT: nat := 0x8000_0000

  /** The checksum RFC 1071 defines, in unbounded arithmetic. */
  function TrueChecksum(ws: seq<nat>): (c: nat)
    ensures c < BASE
  {
    Complement(Fold(Sum(ws)))
  }

  /** Of all buffers with a 32-bit length, the code gets exactly those right whose sum fits 32 bits. */
  lemma ChecksumIsTrueIff(ws: seq<nat>)
    requires |ws| <= WORDS_LIMIT && forall i :: 0 <= i < |ws| ==> ws[i] < BASE
    ensures Checksum(ws) == TrueChecksum(ws) <==> Sum(ws) < UINT32_SIZE
  {
    var s := Sum(ws);
    SumBound(ws);
    var hi, lo := s / UINT32_SIZE, s % UINT32_SIZE;
    if hi == 0 {
      assert lo == s;
    } else {
      assert hi < MODULUS;
      LostCarries(s, hi, lo);
      FoldIsResidue(s);
      FoldIsResidue(lo);
    }
  }

  /** Dropping hi carries of 2^32, each worth 1, changes the residue. */
  lemma LostCarries(s: nat, hi: nat, lo: nat)
    requires s == UINT32_SIZE * hi + lo && 0 < hi < MODULUS
    ensures s % MODULUS != lo % MODULUS
  {
    AddMultiple(lo + hi, MAX_WORDS * hi);
    assert s == (lo + hi) + MODULUS * (MAX_WORDS * hi);
    var q, m := lo / MODULUS, lo % MODULUS;
    assert lo == MODULUS * q + m;
    if m + hi < MODULUS {
      DivModUnique(lo + hi, MODULUS, q, m + hi);
    } else {
      DivModUnique(lo + hi, MODULUS, q + 1, m + hi - MODULUS);
    }
  }

  lemma {:induction false} SumOfEqual(n: nat, w: nat)
    ensures Sum(seq(n, i => w)) == n * w
    decreases n
  {
    if n > 0 {
      assert seq(n, i => w)[1..] == seq(n - 1, i => w);
      SumOfEqual(n - 1, w);
      assert n * w == w + (n - 1) * w;
    }
  }

  /** The shortest buffer it gets wrong: 65538 words of all ones. */
  lemma WrongChecksum(n: nat)
    requires n == MAX_WORDS + 1
    ensures Checksum(seq(n, i => MODULUS)) != TrueChecksum(seq(n, i => MODULUS))
  {
    SumOfEqual(n, MODULUS);
    assert n * MODULUS == UINT32_SIZE - 1 + MODULUS;
    ChecksumIsTrueIff(seq(n, i => MODULUS));
  }

  /** The summing loop, with its 32-bit wrap-around. */
  method SumWords(data: seq<Byte>) returns (sum: nat)
    ensures sum == Sum(Words(data)) % UINT32_SIZE
  {
    var i := 0;
    sum := 0;
    ghost var all := Sum(Words(data));
    while |data| - i > 1
      invariant 0 <= i <= |data| && sum < UINT32_SIZE
      invariant Summed(all, sum, Sum(Words(data[i..])))
    {
      NextWord(data[i..]);
      assert data[i..][2..] == data[i + 2..];
      var w := Word(data[i], data[i + 1]);
      SummedStep(all, sum, w, Sum(Words(data[i + 2..])));
      sum := (sum + w) % UINT32_SIZE;
      i := i + 2;
    }
    if |data| - i > 0 {
      LastByte(data[i..]);
      SummedStep(all, sum, data[i], 0);
      sum := (sum + data[i]) % UINT32_SIZE;
    }
  }

  lemma NextWord(rest: seq<Byte>)
    requires |rest| > 1
    ensures Sum(Words(rest)) == Word(rest[0], rest[1]) + Sum(Words(rest[2..]))
  {
    var ws := Words(rest);
    assert ws[0] == Word(rest[0], rest[1]) && ws[1..] == Words(rest[2..]);
  }

  lemma LastByte(rest: seq<Byte>)
    requires |rest| == 1
    ensures Sum(Words(rest)) == rest[0]
  {
    assert Words(rest)[1..] == [];
  }

  /** net_checksum. */
  method NetChecksum(data: seq<Byte>) returns (c: nat)
    ensures c == Checksum(Words(data))
  {
    var sum: nat := SumWords(data);
    ghost var s := sum;
    while sum >= BASE
      invariant Fold(sum) == Fold(s)
    {
      sum := sum % BASE + sum / BASE;
    }
    c := Complement(sum);
  }

  /** The running sum and the words still to come make up the whole sum, modulo 2^32. */
  predicate Summed(all: nat, sum: nat, rest: nat) {
    all % UINT32_SIZE == (sum + rest) % UINT32_SIZE
  }

  lemma SummedStep(all: nat, sum: nat, w: nat, rest: nat)
    requires Summed(all, sum, w + rest)
    ensures Summed(all, (sum + w) % UINT32_SIZE, rest)
  {
    AddWrapped(sum, w, rest);
  }

  lemma AddWrapped(a: nat, w: nat, rest: nat)
    ensures (a + (w + rest)) % UINT32_SIZE == ((a + w) % UINT32_SIZE + rest) % UINT32_SIZE
  {
    var q, y := (a + w) / UINT32_SIZE, (a + w) % UINT32_SIZE + rest;
    var k, r := y / UINT32_SIZE, y % UINT32_SIZE;
    assert a + (w + rest) == UINT32_SIZE * (q + k) + r;
    DivModUnique(a + (w + rest), UINT32_SIZE, q + k, r);
  }
}
