/**
 Double hashing of string keys (src/helper.c): the two 64-bit hashes, the probe
 sequence they give, and why a prime table size makes that sequence a permutation.
 */
module Hashing {
  import opened Integers
  import opened Primes

  /** Hashes are computed in an `unsigned long`, which wraps at 2^64. */
  const WORD := 0x1_0000_0000_0000_0000

  /** A byte read through a signed `char`, as the hash loops read it. */
  function CharValue(c: char): int {
    var b := c as int % 256;
    if b < 128 then b else b - 256
  }

  /** The hash of `s` before any wrap-around: a polynomial in `base` with coefficients from `s`. */
  function Poly(base: int, seed: int, s: string): int {
    if s == [] then seed
    else Poly(base, seed, s[..|s| - 1]) * base + CharValue(s[|s| - 1])
  }

  function Home(key: string, size: int): (h: nat)
    requires size > 0
    ensures h < size
  {
    Poly(33, 5381, key) % WORD % size
  }

  function Step(key: string, size: int): (h: nat)
    requires size > 0
    ensures h < size
  {
    Poly(65599, 0, key) % WORD % size
  }

  /** The slot looked at by probe number `i`. */
  function Probe(key: string, size: int, i: int): (h: nat)
    requires size > 0
    ensures h < size
  {
    (Home(key, size) + i * Step(key, size)) % size
  }

  // ----- the loops

  lemma ModuloShift(a: int, k: int, m: int)
    requires m > 0
    ensures (a + k * m) % m == a % m
  {
    var q, r := a / m, a % m;
    assert a + k * m == (q + k) * m + r;
    RemainderUnique((q + k) * m + r, q + k, r, m);
  }

  lemma RemainderUnique(n: int, q: int, r: int, m: int)
    requires 0 <= r < m && n == q * m + r
    ensures n % m == r
  {
    assert (q - n / m) * m == n % m - r;
    MultipleBounds(q - n / m, m);
  }

  /** One wrapped step of a hash loop agrees with the unwrapped polynomial step. */
  lemma WrappedStep(p: int, base: int, c: int, w: int)
    requires w % WORD == ((p % WORD) * base + c) % WORD
    ensures w % WORD == (p * base + c) % WORD
  {
    var q, h := p / WORD, p % WORD;
    assert p * base + c == (h * base + c) + (q * base) * WORD by {
      assert p == q * WORD + h;
    }
    ModuloShift(h * base + c, q * base, WORD);
  }

  /** `hash << k` drops the bits above the word; what is dropped is a multiple of the word. */
  function ShiftLeft(h: int, factor: int): int {
    (h * factor) % WORD
  }

  lemma ShiftIsCongruent(h: int, factor: int, rest: int)
    ensures (ShiftLeft(h, factor) + rest) % WORD == (h * factor + rest) % WORD
  {
    ModuloShift(ShiftLeft(h, factor) + rest, (h * factor) / WORD, WORD);
  }

  method Djb2(str: string, size: int) returns (r: int)
    requires size > 0
    ensures r == Home(str, size)
  {
    var hash := 5381;
    var i := 0;
    while i < |str|
      invariant 0 <= i <= |str|
      invariant hash == Poly(33, 5381, str[..i]) % WORD
    {
      assert str[..i + 1][..i] == str[..i];
      var c := CharValue(str[i]);
      ShiftIsCongruent(hash, 32, hash + c);
      WrappedStep(Poly(33, 5381, str[..i]), 33, c, ShiftLeft(hash, 32) + hash + c);
      hash := (ShiftLeft(hash, 32) + hash + c) % WORD;
      i := i + 1;
    }
    assert str[..i] == str;
    return hash % size;
  }

  method Sdbm(str: string, size: int) returns (r: int)
    requires size > 0
    ensures r == Step(str, size)
  {
    var hash := 0;
    var i := 0;
    while i < |str|
      invariant 0 <= i <= |str|
      invariant hash == Poly(65599, 0, str[..i]) % WORD
    {
      assert str[..i + 1][..i] == str[..i];
      var c := CharValue(str[i]);
      ShiftIsCongruent(hash, 64, c + ShiftLeft(hash, 65536) - hash);
      ShiftIsCongruent(hash, 65536, c + hash * 64 - hash);
      WrappedStep(Poly(65599, 0, str[..i]), 65599, c, c + ShiftLeft(hash, 64) + ShiftLeft(hash, 65536) - hash);
      hash := (c + ShiftLeft(hash, 64) + ShiftLeft(hash, 65536) - hash) % WORD;
      i := i + 1;
    }
    assert str[..i] == str;
    return hash % size;
  }

  method HashFunc(key: string, size: int, i: int) returns (r: int)
    requires size > 0 && 0 <= i
    ensures r == Probe(key, size, i)
  {
    var hash := Djb2(key, size);
    var step := Sdbm(key, size);
    var res := if i == 0 then hash else hash + i * step;
    return res % size;
  }

  lemma MulMonotone(a: int, b: int, c: int)
    requires 0 <= a && b <= c
    ensures a * b <= a * c && b * a <= c * a
  {
  }

  lemma ProbeSumBound(h: int, i: int, step: int, size: int)
    requires 0 <= h < size && 0 <= i < size && 0 <= step < size
    ensures h + i * step <= size * (size - 1)
  {
    MulMonotone(i, step, size - 1);
    MulMonotone(size - 1, i, size - 1);
    assert size * (size - 1) == (size - 1) * (size - 1) + (size - 1);
  }

  /** The sum `hash + i * step` stays inside a 32-bit int for every probe of a table of at most 46341 slots. */
  lemma ProbeSumFitsInt(key: string, size: int, i: int)
    requires 0 <= i < size <= 46341
    ensures Home(key, size) + i * Step(key, size) <= INT_MAX
  {
    ProbeSumBound(Home(key, size), i, Step(key, size), size);
    MulMonotone(size, size - 1, 46340);
  }

  /** The hashes of a string of one plain character. */
  lemma OneCharHash(key: string, size: int)
    requires |key| == 1 && CharValue(key[0]) >= 0 && size > 0
    ensures Home(key, size) == (177573 + CharValue(key[0])) % size
    ensures Step(key, size) == CharValue(key[0]) % size
  {
    var c := CharValue(key[0]);
    assert key[..0] == "";
    assert Poly(33, 5381, "") == 5381 && Poly(65599, 0, "") == 0;
    assert Poly(33, 5381, key) == 177573 + c && Poly(65599, 0, key) == c;
    RemainderUnique(177573 + c, 0, 177573 + c, WORD);
    RemainderUnique(c, 0, c, WORD);
  }

  /** The number a byte stands for in a signed `char`. */
  lemma SignedByte(c: char)
    ensures c as int < 128 ==> CharValue(c) == c as int
    ensures 128 <= c as int < 256 ==> CharValue(c) == c as int - 256
  {
  }

  /**
   The two hashes in a word, one character at a time, with the shifts of the source written as factors:
   5 bits for the first hash, 6 and 16 for the second. At a size of 2^64 home and step are the hashes.
   */
  lemma HashesByCharacter(key: string, c: char)
    ensures Home("", WORD) == 5381 && Step("", WORD) == 0
    ensures Home(key + [c], WORD) == (32 * Home(key, WORD) + Home(key, WORD) + CharValue(c)) % WORD
    ensures Step(key + [c], WORD) ==
            (CharValue(c) + 64 * Step(key, WORD) + 65536 * Step(key, WORD) - Step(key, WORD)) % WORD
  {
    assert (key + [c])[..|key|] == key;
    var p, q := Poly(33, 5381, key), Poly(65599, 0, key);
    WordOfWord(p);
    WordOfWord(q);
    WordOfWord(p * 33 + CharValue(c));
    WordOfWord(q * 65599 + CharValue(c));
    WrappedStep(p, 33, CharValue(c), (p % WORD) * 33 + CharValue(c));
    WrappedStep(q, 65599, CharValue(c), (q % WORD) * 65599 + CharValue(c));
  }

  lemma WordOfWord(x: int)
    ensures x % WORD % WORD == x % WORD
  {
  }

  /** At any size they are these hashes, reduced. */
  lemma HashesReduced(key: string, size: int)
    requires size > 0
    ensures Home(key, size) == Home(key, WORD) % size && Step(key, size) == Step(key, WORD) % size
  {
    WordOfWord(Poly(33, 5381, key));
    WordOfWord(Poly(65599, 0, key));
  }

  /** The probes start at home and go one step further each time. */
  lemma ProbeNext(key: string, size: int, i: int)
    requires size > 0
    ensures Probe(key, size, 0) == Home(key, size)
    ensures Probe(key, size, i + 1) == (Probe(key, size, i) + Step(key, size)) % size
  {
    ProbeZero(key, size);
    var h, s := Home(key, size), Step(key, size);
    var n := h + i * s;
    assert h + (i + 1) * s == n % size + s + (n / size) * size;
    ModuloShift(n % size + s, n / size, size);
  }

  // ----- coverage

  lemma ProbeZero(key: string, size: int)
    requires size > 0
    ensures Probe(key, size, 0) == Home(key, size)
  {
    RemainderUnique(Home(key, size), 0, Home(key, size), size);
  }

  lemma ZeroStepStaysHome(key: string, size: int, i: int)
    requires size > 0 && Step(key, size) == 0
    ensures Probe(key, size, i) == Home(key, size)
  {
    RemainderUnique(Home(key, size), 0, Home(key, size), size);
  }

  /** No key of `keys` has step 0 at this size. */
  ghost predicate StepsNonZero(keys: set<string>, size: nat)
    requires size > 0
  {
    forall key :: key in keys ==> Step(key, size) != 0
  }

  lemma ProbesDiffer(key: string, size: int, i: int, j: int)
    requires Prime(size) && Step(key, size) != 0 && 0 <= i < j < size
    ensures Probe(key, size, i) != Probe(key, size, j)
  {
    var h, s := Home(key, size), Step(key, size);
    var a, b := h + i * s, h + j * s;
    if a % size == b % size {
      assert (b / size - a / size) * size == (j - i) * s by {
        assert b - a == (j - i) * s;
      }
      assert IsProduct(b / size - a / size, size, (j - i) * s);
      PrimeDividesNoProduct(size, j - i, s);
    }
  }

  ghost function ProbeSet(key: string, size: int, n: nat): set<nat>
    requires size > 0
  {
    if n == 0 then {} else ProbeSet(key, size, n - 1) + {Probe(key, size, n - 1)}
  }

  lemma {:induction false} ProbeSetMembers(key: string, size: int, n: nat, p: nat)
    requires size > 0
    ensures p in ProbeSet(key, size, n) <==> exists i :: 0 <= i < n && Probe(key, size, i) == p
  {
    if n > 0 {
      ProbeSetMembers(key, size, n - 1, p);
    }
  }

  lemma {:induction false} ProbeSetCardinality(key: string, size: int, n: nat)
    requires Prime(size) && Step(key, size) != 0 && n <= size
    ensures |ProbeSet(key, size, n)| == n
  {
    if n > 0 {
      ProbeSetCardinality(key, size, n - 1);
      ProbeSetMembers(key, size, n - 1, Probe(key, size, n - 1));
      forall i | 0 <= i < n - 1
        ensures Probe(key, size, i) != Probe(key, size, n - 1)
      {
        ProbesDiffer(key, size, i, n - 1);
      }
    }
  }

  ghost function Below(n: nat): (s: set<nat>)
    ensures |s| == n
    ensures forall p: nat :: p in s <==> p < n
  {
    if n == 0 then {} else Below(n - 1) + {n - 1}
  }

  lemma SubsetOfSameSize(a: set<nat>, b: set<nat>)
    requires a <= b && |a| == |b|
    ensures a == b
  {
    assert b == a + (b - a);
    assert |b| == |a| + |b - a|;
    forall x | x in b
      ensures x in a
    {
      assert b - a == {};
      assert x !in b - a;
    }
  }

  /** With a prime size and a non-zero step the probe sequence reaches every slot. */
  lemma ProbeReaches(key: string, size: int, p: nat) returns (i: int)
    requires Prime(size) && Step(key, size) != 0 && p < size
    ensures 0 <= i < size && Probe(key, size, i) == p
  {
    ProbeSetCardinality(key, size, size);
    forall q | q in ProbeSet(key, size, size)
      ensures q in Below(size)
    {
      ProbeSetMembers(key, size, size, q);
    }
    SubsetOfSameSize(ProbeSet(key, size, size), Below(size));
    ProbeSetMembers(key, size, size, p);
    i :| 0 <= i < size && Probe(key, size, i) == p;
  }

  ghost predicate Reaches(key: string, size: int, p: int)
    requires size > 0
  {
    exists i :: 0 <= i < size && Probe(key, size, i) == p
  }

  ghost predicate VisitsEverySlotOnce(key: string, size: int)
    requires size > 0
  {
    && (forall i, j :: 0 <= i < j < size ==> Probe(key, size, i) != Probe(key, size, j))
    && (forall p :: 0 <= p < size ==> Reaches(key, size, p))
  }

  /**
   In a table of prime size the bounded probe loop is a permutation of the slots exactly when the step is non-
   zero.
   */
  lemma ProbeIsPermutation(key: string, size: int)
    requires Prime(size)
    ensures VisitsEverySlotOnce(key, size) <==> Step(key, size) != 0
  {
    if Step(key, size) == 0 {
      ZeroStepStaysHome(key, size, 0);
      ZeroStepStaysHome(key, size, 1);
      assert Probe(key, size, 0) == Probe(key, size, 1);
    } else {
      forall i, j | 0 <= i < j < size
        ensures Probe(key, size, i) != Probe(key, size, j)
      {
        ProbesDiffer(key, size, i, j);
      }
      forall p | 0 <= p < size
        ensures Reaches(key, size, p)
      {
        var i := ProbeReaches(key, size, p);
      }
    }
  }
}
