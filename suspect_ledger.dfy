/** The suspect table of the detective game (`TabelaHash`): a fixed array of
    TAMANHO_HASH buckets, each the head of a chain of (clue, suspect)
    entries. New entries go to the front of their chain and nothing is ever
    removed, so a later registration of the same clue shadows an earlier one. */
module SuspectLedger {

  /** TAMANHO_HASH: the number of buckets. */
  const BucketCount := 7

  /** What `encontrarSuspeito` answers for a clue with no registration. */
  const Unknown := "DESCONHECIDO"

  /** One chain entry (`HashNode`): the clue is the key, the suspect the value. */
  datatype Association = Association(clue: string, suspect: string)

  /** The sum of the character codes of `s`. */
  function CodeSum(s: string): nat {
    if s == [] then 0 else CodeSum(s[..|s| - 1]) + s[|s| - 1] as nat
  }

  /** The bucket a clue is routed to: its code sum modulo `BucketCount`. */
  function Bucket(clue: string): nat {
    CodeSum(clue) % BucketCount
  }

  /** The code sum of a concatenation is the sum of the code sums. */
  lemma {:induction false} CodeSumAppend(a: string, b: string)
    ensures CodeSum(a + b) == CodeSum(a) + CodeSum(b)
    decreases |b|
  {
    if b == [] {
      assert a + b == a;
    } else {
      var last := |b| - 1;
      assert (a + b)[..|a + b| - 1] == a + b[..last];
      CodeSumAppend(a, b[..last]);
    }
  }

  /** The hash ignores where a piece of text sits: swapping the two halves of
      a clue never moves it to another bucket, which is why distinct clues
      collide and chains longer than one entry occur. */
  lemma BucketIgnoresOrder(a: string, b: string)
    ensures Bucket(a + b) == Bucket(b + a)
  {
    CodeSumAppend(a, b);
    CodeSumAppend(b, a);
  }

  /** `calcularHash`: adds up the character codes of the key and reduces the
      total modulo the bucket count, giving an index into the table. */
  method ComputeHash(key: string) returns (index: int)
    ensures index == Bucket(key)
    ensures 0 <= index < BucketCount
  {
    var hash := 0;
    var i := 0;
    while i < |key|
      invariant 0 <= i <= |key|
      invariant hash == CodeSum(key[..i])
    {
      assert key[..i + 1][..i] == key[..i];
      hash := hash + key[i] as int;
      i := i + 1;
    }
    assert key[..i] == key;
    index := hash % BucketCount;
  }

  /** The suspect of the first entry of `chain` whose clue is `clue`, or
      `Unknown` when there is none. */
  function FirstMatch(chain: seq<Association>, clue: string): (suspect: string)
    ensures suspect == Unknown ||
            exists i :: 0 <= i < |chain| && chain[i].clue == clue && chain[i].suspect == suspect
    decreases |chain|
  {
    if chain == [] then Unknown
    else if chain[0].clue == clue then chain[0].suspect
    else FirstMatch(chain[1..], clue)
  }

  /** The entries of `registrations` that hash to bucket `b`, in order. */
  function InBucket(registrations: seq<Association>, b: nat): seq<Association> {
    if registrations == [] then []
    else if Bucket(registrations[0].clue) == b then [registrations[0]] + InBucket(registrations[1..], b)
    else InBucket(registrations[1..], b)
  }

  /** Lookup over the whole table: scan the clue's own bucket. */
  function Resolve(buckets: seq<seq<Association>>, clue: string): string
    requires |buckets| == BucketCount
  {
    FirstMatch(buckets[Bucket(clue)], clue)
  }

  /** Routing is transparent: scanning only the clue's bucket gives the same
      answer as scanning every registration, newest first. */
  lemma {:induction false} RoutingIsTransparent(registrations: seq<Association>, clue: string)
    ensures FirstMatch(InBucket(registrations, Bucket(clue)), clue) == FirstMatch(registrations, clue)
    decreases |registrations|
  {
    if registrations != [] {
      RoutingIsTransparent(registrations[1..], clue);
    }
  }

  /** The newest registration of a clue decides its suspect. */
  lemma {:induction false} NewestRegistrationWins(registrations: seq<Association>, clue: string, i: nat)
    requires i < |registrations| && registrations[i].clue == clue
    requires forall k :: 0 <= k < i ==> registrations[k].clue != clue
    ensures FirstMatch(registrations, clue) == registrations[i].suspect
    decreases i
  {
    if i > 0 {
      NewestRegistrationWins(registrations[1..], clue, i - 1);
    }
  }

  /** A clue that was never registered resolves to `Unknown`. */
  lemma {:induction false} UnregisteredIsUnknown(registrations: seq<Association>, clue: string)
    requires forall k :: 0 <= k < |registrations| ==> registrations[k].clue != clue
    ensures FirstMatch(registrations, clue) == Unknown
    decreases |registrations|
  {
    if registrations != [] {
      UnregisteredIsUnknown(registrations[1..], clue);
    }
  }

  /** The effect of one registration on lookups: the registered clue now
      resolves to the new suspect, every other clue resolves as before. */
  lemma ResolveAfterRegister(buckets: seq<seq<Association>>, clue: string, suspect: string, other: string)
    requires |buckets| == BucketCount
    ensures var b := Bucket(clue);
            var after := buckets[b := [Association(clue, suspect)] + buckets[b]];
            Resolve(after, clue) == suspect &&
            (other != clue ==> Resolve(after, other) == Resolve(buckets, other))
  {
    var b := Bucket(clue);
    var after := buckets[b := [Association(clue, suspect)] + buckets[b]];
    if other != clue && Bucket(other) == b {
      assert after[b][1..] == buckets[b];
    }
  }

  /** The table of `tabela_suspeitos`. */
  class SuspectTable {
    /** `tabela`: one chain per bucket, newest entry first. */
    const buckets: array<seq<Association>>
    /** Every registration so far, newest first. */
    ghost var registrations: seq<Association>

    /** Each bucket holds exactly the registrations that hash to it, newest first. */
    ghost predicate Valid()
      reads this, buckets
    {
      buckets.Length == BucketCount &&
      forall b :: 0 <= b < BucketCount ==> buckets[b] == InBucket(registrations, b)
    }

    /** `inicializarHash`: every bucket starts empty. */
    constructor ()
      ensures Valid() && fresh(buckets) && registrations == []
      ensures forall b :: 0 <= b < BucketCount ==> buckets[b] == []
    {
      buckets := new seq<Association>[BucketCount](_ => []);
      registrations := [];
    }

    /** `inserirNaHash`: prepends the pair to the chain of the clue's bucket;
        the old chain becomes its tail and every other bucket is untouched.
        Duplicates are not removed. */
    method Register(clue: string, suspect: string)
      requires Valid()
      modifies this, buckets
      ensures Valid()
      ensures registrations == [Association(clue, suspect)] + old(registrations)
      ensures buckets[..] == old(buckets[..])[Bucket(clue) := [Association(clue, suspect)] + old(buckets[Bucket(clue)])]
    {
      var index := ComputeHash(clue);
      buckets[index] := [Association(clue, suspect)] + buckets[index];
      registrations := [Association(clue, suspect)] + registrations;
    }

    /** `encontrarSuspeito`: scans the chain of the clue's bucket for the first
        entry with exactly this clue. The answer is that of the newest
        registration of the clue, or `Unknown`; the table is not changed. */
    method FindSuspect(clue: string) returns (suspect: string)
      requires Valid()
      ensures suspect == Resolve(buckets[..], clue)
      ensures suspect == FirstMatch(registrations, clue)
    {
      var index := ComputeHash(clue);
      var chain := buckets[index];
      var k := 0;
      while k < |chain|
        invariant 0 <= k <= |chain|
        invariant FirstMatch(chain[k..], clue) == FirstMatch(chain, clue)
      {
        if chain[k].clue == clue {
          suspect := chain[k].suspect;
          RoutingIsTransparent(registrations, clue);
          return;
        }
        assert chain[k..][1..] == chain[k + 1..];
        k := k + 1;
      }
      suspect := Unknown;
      RoutingIsTransparent(registrations, clue);
    }
  }
}
