/** The suspect index of Mestre.c: a table of TAMANHO_TABELA_HASH chained
    buckets from clue text to suspect name. The pure functions below are the
    specification (bucket choice, chain scan, insert-or-update, the map the
    table stands for); class SuspectTable is the table the C code mutates. */
module SuspectIndex {
  import opened CStrings

  /** TAMANHO_TABELA_HASH. */
  const TableSize: nat := 10

  /** The range of a 32-bit `unsigned int`. */
  const Word: nat := 0x1_0000_0000

  /** A plain `char` read as a signed 8-bit value, as gcc does on x86: bytes
      from 128 up count as negative numbers. */
  function CharValue(c: char): int {
    if c as int < 128 then c as int else c as int - 256
  }

  /** `hashVal` after the loop of `hash` has consumed `s`: each step computes
      `hashVal * 31 + c` and wraps it to 32 bits. */
  function Accumulate(s: string): (h: nat)
    ensures h < Word
  {
    if s == [] then 0
    else (Accumulate(s[..|s| - 1]) * 31 + CharValue(s[|s| - 1])) % Word
  }

  function Pow(b: int, n: nat): int {
    if n == 0 then 1 else b * Pow(b, n - 1)
  }

  /** The textbook polynomial hash, with no wrap-around:
      the sum of c_i * 31^(n-1-i) over the characters c_0 .. c_(n-1). */
  function Polynomial(s: string): int {
    if s == [] then 0 else CharValue(s[0]) * Pow(31, |s| - 1) + Polynomial(s[1..])
  }

  /** The bucket `hash` picks for a clue. */
  function Bucket(s: string): nat {
    Accumulate(s) % TableSize
  }

  /** Wrapping every step to 32 bits gives the 32-bit residue of the
      polynomial: the loop of `hash` computes the polynomial modulo 2^32. */
  lemma {:induction false} AccumulateIsPolynomial(s: string)
    ensures Accumulate(s) == Polynomial(s) % Word
    decreases |s|
  {
    if s != [] {
      var p, c := s[..|s| - 1], CharValue(s[|s| - 1]);
      AccumulateIsPolynomial(p);
      PolynomialSnoc(p, s[|s| - 1]);
      assert p + [s[|s| - 1]] == s;
      ModStep(Polynomial(p), c);
    }
  }

  /** Appending a character multiplies the polynomial by 31 and adds it. */
  lemma {:induction false} PolynomialSnoc(p: string, c: char)
    ensures Polynomial(p + [c]) == Polynomial(p) * 31 + CharValue(c)
    decreases |p|
  {
    if p == [] {
      assert p + [c] == [c];
    } else {
      assert (p + [c])[1..] == p[1..] + [c];
      PolynomialSnoc(p[1..], c);
      var x, n := CharValue(p[0]), |p| - 1;
      calc {
        Polynomial(p + [c]);
        x * Pow(31, n + 1) + Polynomial(p[1..] + [c]);
        x * Pow(31, n + 1) + Polynomial(p[1..]) * 31 + CharValue(c);
        { assert x * Pow(31, n + 1) == x * Pow(31, n) * 31; }
        (x * Pow(31, n) + Polynomial(p[1..])) * 31 + CharValue(c);
      }
    }
  }

  /** Reducing the accumulator before the next step does not change the residue. */
  lemma ModStep(a: int, c: int)
    ensures ((a % Word) * 31 + c) % Word == (a * 31 + c) % Word
  {
    var q := a / Word;
    assert a == q * Word + a % Word;
    assert a * 31 + c == (a % Word) * 31 + c + (q * 31) * Word;
    ModAddMultiple((a % Word) * 31 + c, q * 31);
  }

  lemma ModAddMultiple(x: int, m: int)
    ensures (x + m * Word) % Word == x % Word
  {
    var r := x % Word;
    var q := x / Word;
    assert x + m * Word == (q + m) * Word + r;
  }

  /** `hash` (Mestre.c): the loop runs `hashVal = hashVal * 31 + chave[i]`
      in 32-bit unsigned arithmetic, then reduces modulo the table size. */
  method Hash(s: string) returns (h: nat)
    ensures h == Polynomial(s) % Word % TableSize
    ensures h < TableSize
  {
    var hashVal: nat := 0;
    var i := 0;
    while i < |s|
      invariant 0 <= i <= |s|
      invariant hashVal == Accumulate(s[..i])
    {
      assert s[..i + 1][..i] == s[..i];
      hashVal := (hashVal * 31 + CharValue(s[i])) % Word;
      i := i + 1;
    }
    assert s[..|s|] == s;
    AccumulateIsPolynomial(s);
    h := hashVal % TableSize;
  }

  /** One `HashItem`: the stored clue and its suspect. */
  datatype Item = Item(clue: string, suspect: string)

  /** Where a chain scan stops: the first item holding `k`, or the chain's
      length when there is none. */
  function FindIndex(c: seq<Item>, k: string): (i: nat)
    ensures i <= |c|
    ensures i < |c| ==> c[i].clue == k
    ensures forall j :: 0 <= j < i ==> c[j].clue != k
  {
    if c == [] then 0
    else if c[0].clue == k then 0
    else 1 + FindIndex(c[1..], k)
  }

  /** Chain scan of `encontrarSuspeito`: the suspect of the first match. */
  function ChainFind(c: seq<Item>, k: string): Option<string> {
    var i := FindIndex(c, k);
    if i < |c| then Some(c[i].suspect) else None
  }

  /** Chain update of `inserirNaHash`: overwrite the suspect of the first
      match in place, or else put a new item, key truncated, at the front. */
  function ChainPut(c: seq<Item>, k: string, v: string): seq<Item> {
    var i := FindIndex(c, k);
    if i < |c| then c[i := Item(c[i].clue, v)] else [Item(Truncate(k), v)] + c
  }

  /** `encontrarSuspeito` on a table of bucket chains. */
  function Lookup(t: seq<seq<Item>>, k: string): Option<string>
    requires |t| == TableSize
  {
    ChainFind(t[Bucket(k)], k)
  }

  /** `inserirNaHash` on a table of bucket chains: the suspect is truncated
      to its buffer and only bucket `hash(k)` changes. */
  function Put(t: seq<seq<Item>>, k: string, v: string): (r: seq<seq<Item>>)
    requires |t| == TableSize
    ensures |r| == TableSize
  {
    t[Bucket(k) := ChainPut(t[Bucket(k)], k, Truncate(v))]
  }

  /** The table `main` starts from: every bucket NULL. */
  function EmptyTable(): (t: seq<seq<Item>>)
    ensures |t| == TableSize
  {
    seq(TableSize, _ => [])
  }

  /** The table invariant: every item sits in the bucket of its own clue,
      and no clue appears twice in a chain. */
  ghost predicate WellFormed(t: seq<seq<Item>>) {
    && |t| == TableSize
    && (forall b, i :: 0 <= b < |t| && 0 <= i < |t[b]| ==> Bucket(t[b][i].clue) == b)
    && (forall b, i, j :: 0 <= b < |t| && 0 <= i < j < |t[b]| ==> t[b][i].clue != t[b][j].clue)
  }

  /** Every clue stored anywhere in the table. */
  ghost function StoredClues(t: seq<seq<Item>>): set<string> {
    set b, i | 0 <= b < |t| && 0 <= i < |t[b]| :: t[b][i].clue
  }

  /** The map the table stands for: each clue a lookup finds, to what it finds. */
  ghost function Contents(t: seq<seq<Item>>): map<string, string>
    requires |t| == TableSize
  {
    map k | k in StoredClues(t) && Lookup(t, k).Some? :: Lookup(t, k).value
  }

  /** The scan stops at the same place in two chains that hold the same clues
      in the same order. */
  lemma SameCluesSameIndex(c: seq<Item>, d: seq<Item>, k: string)
    requires |c| == |d| && forall j :: 0 <= j < |c| ==> c[j].clue == d[j].clue
    ensures FindIndex(c, k) == FindIndex(d, k)
  {
    var i, i' := FindIndex(c, k), FindIndex(d, k);
    assert i < |d| ==> d[i].clue == k;
    assert i' < |c| ==> c[i'].clue == k;
  }

  /** After `inserirNaHash(t, k, v)` the lookup of `k` gives `v` (as stored,
      truncated to its buffer) and the lookup of every other clue is unchanged. */
  lemma LookupAfterPut(t: seq<seq<Item>>, k: string, v: string, x: string)
    requires |t| == TableSize && |k| < MaxString
    ensures Lookup(Put(t, k, v), x) == if x == k then Some(Truncate(v)) else Lookup(t, x)
  {
    var h := Bucket(k);
    if Bucket(x) == h {
      var c := t[h];
      var c' := ChainPut(c, k, Truncate(v));
      var i := FindIndex(c, k);
      if i < |c| {
        SameCluesSameIndex(c, c', x);
      } else {
        if x != k {
          assert c'[1..] == c;
        }
      }
    }
  }

  /** A lookup finds a clue exactly when the clue is a key of the table's
      map, and then finds the value the map holds. */
  lemma LookupIsContents(t: seq<seq<Item>>, x: string)
    requires |t| == TableSize
    ensures x in Contents(t) <==> Lookup(t, x).Some?
    ensures x in Contents(t) ==> Lookup(t, x) == Some(Contents(t)[x])
  {
    var c := t[Bucket(x)];
    var i := FindIndex(c, x);
    if i < |c| {
      assert x == t[Bucket(x)][i].clue;
      assert x in StoredClues(t);
    }
  }

  /** Map refinement: inserting into the table updates the map it stands for
      at exactly one key. */
  lemma PutIsMapUpdate(t: seq<seq<Item>>, k: string, v: string)
    requires |t| == TableSize && |k| < MaxString
    ensures Contents(Put(t, k, v)) == Contents(t)[k := Truncate(v)]
  {
    var t' := Put(t, k, v);
    forall x
      ensures x in Contents(t') <==> x in Contents(t)[k := Truncate(v)]
      ensures x in Contents(t') ==> Contents(t')[x] == Contents(t)[k := Truncate(v)][x]
    {
      LookupAfterPut(t, k, v, x);
      LookupIsContents(t, x);
      LookupIsContents(t', x);
    }
  }

  /** In a well-formed table every stored clue can be found again: nothing
      sits in a bucket its clue does not hash to. */
  lemma StoredCluesAreFound(t: seq<seq<Item>>)
    requires WellFormed(t)
    ensures Contents(t).Keys == StoredClues(t)
  {
    forall x | x in StoredClues(t) ensures x in Contents(t) {
      var b, i :| 0 <= b < |t| && 0 <= i < |t[b]| && t[b][i].clue == x;
      assert Bucket(x) == b;
      assert FindIndex(t[b], x) <= i;
      LookupIsContents(t, x);
    }
  }

  /** Nothing is found in the empty table. */
  lemma EmptyTableFindsNothing(k: string)
    ensures Lookup(EmptyTable(), k) == None
    ensures Contents(EmptyTable()) == map[]
  {
    assert StoredClues(EmptyTable()) == {};
  }

  /** `inserirNaHash` keeps the table invariant, for clues that fit their buffer. */
  lemma PutPreservesWellFormed(t: seq<seq<Item>>, k: string, v: string)
    requires WellFormed(t) && |k| < MaxString
    ensures WellFormed(Put(t, k, v))
  {
    var h := Bucket(k);
    var c := t[h];
    var c' := ChainPut(c, k, Truncate(v));
    var t' := Put(t, k, v);
    assert t'[h] == c';
    if FindIndex(c, k) < |c| {
      assert forall j :: 0 <= j < |c| ==> c'[j].clue == c[j].clue;
    } else {
      assert forall j :: 1 <= j < |c'| ==> c'[j] == c[j - 1];
      assert forall j :: 0 <= j < |c| ==> c[j].clue != k;
    }
  }

  /** A fresh table with one association finds it, and a clue spelled
      differently, even only in letter case, is not found. */
  lemma SingleAssociation(k: string, v: string, x: string)
    requires |k| < MaxString && x != k
    ensures Lookup(Put(EmptyTable(), k, v), k) == Some(Truncate(v))
    ensures Lookup(Put(EmptyTable(), k, v), x) == None
  {
    LookupAfterPut(EmptyTable(), k, v, k);
    LookupAfterPut(EmptyTable(), k, v, x);
    EmptyTableFindsNothing(x);
  }

  /** The suspect index as Mestre.c holds it: an array of bucket chains
      (`TabelaHash`). Chains are sequences here; see README. */
  class SuspectTable {
    const buckets: array<seq<Item>>

    ghost predicate Valid()
      reads this, buckets
    {
      buckets.Length == TableSize && WellFormed(buckets[..])
    }

    /** The table `main` declares, every bucket set to NULL. */
    constructor ()
      ensures Valid() && fresh(buckets)
      ensures buckets[..] == EmptyTable()
    {
      buckets := new seq<Item>[TableSize](_ => []);
      new;
      assert buckets[..] == EmptyTable();
    }

    /** `inserirNaHash`: scan bucket `hash(k)`; on a match overwrite the
        suspect in place and stop, otherwise put a new item at the front. */
    method Insert(k: string, v: string)
      requires Valid() && |k| < MaxString
      modifies buckets
      ensures Valid()
      ensures buckets[..] == Put(old(buckets[..]), k, v)
      ensures forall b :: 0 <= b < TableSize && b != Bucket(k) ==> buckets[b] == old(buckets[b])
      ensures old(Lookup(buckets[..], k)).Some? ==>
                |buckets[Bucket(k)]| == |old(buckets[Bucket(k)])| &&
                forall j :: 0 <= j < |buckets[Bucket(k)]| ==>
                  buckets[Bucket(k)][j].clue == old(buckets[Bucket(k)])[j].clue
      ensures old(Lookup(buckets[..], k)).None? ==>
                buckets[Bucket(k)] == [Item(k, Truncate(v))] + old(buckets[Bucket(k)])
    {
      var h := Hash(k);
      AccumulateIsPolynomial(k);
      var chain := buckets[h];
      var i := 0;
      while i < |chain|
        invariant 0 <= i <= |chain|
        invariant forall j :: 0 <= j < i ==> chain[j].clue != k
      {
        if Compare(chain[i].clue, k) == 0 {
          assert FindIndex(chain, k) == i;
          PutPreservesWellFormed(buckets[..], k, v);
          buckets[h] := chain[i := Item(chain[i].clue, Truncate(v))];
          return;
        }
        i := i + 1;
      }
      PutPreservesWellFormed(buckets[..], k, v);
      buckets[h] := [Item(Truncate(k), Truncate(v))] + chain;
    }

    /** `encontrarSuspeito`: the suspect of the first item in bucket
        `hash(k)` whose clue equals `k`, or None (NULL). */
    method Find(k: string) returns (r: Option<string>)
      requires buckets.Length == TableSize
      ensures r == Lookup(buckets[..], k)
      ensures Valid() ==> (r.Some? <==> k in Contents(buckets[..]))
    {
      var h := Hash(k);
      AccumulateIsPolynomial(k);
      var chain := buckets[h];
      var i := 0;
      while i < |chain|
        invariant 0 <= i <= |chain|
        invariant forall j :: 0 <= j < i ==> chain[j].clue != k
      {
        if Compare(chain[i].clue, k) == 0 {
          assert FindIndex(chain, k) == i;
          LookupIsContents(buckets[..], k);
          return Some(chain[i].suspect);
        }
        i := i + 1;
      }
      LookupIsContents(buckets[..], k);
      return None;
    }
  }
}
