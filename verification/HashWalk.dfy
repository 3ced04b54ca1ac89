/**
 Walking the symbols of a loaded library through its hash table, of the GNU kind or of the System V
 kind (System V gABI, chapter 5, "Hash Table").  A table is its 32-bit words; n is the length of the
 symbol table, which the walk does not know.
 */
module HashWalk {
  type Word = nat

  /** Each symbol for which the predicate holds was visited once, and no other. */
  ghost predicate Visits(visited: seq<nat>, wanted: nat -> bool) {
    forall i: nat :: multiset(visited)[i] == if wanted(i) then 1 else 0
  }

  lemma VisitsOneMore(visited: seq<nat>, x: nat, was: nat -> bool, now: nat -> bool)
    requires Visits(visited, was) && !was(x)
    requires forall i :: now(i) <==> was(i) || i == x
    ensures Visits(visited + [x], now)
  {
    forall i: nat ensures multiset(visited + [x])[i] == if now(i) then 1 else 0 {
      assert multiset(visited + [x])[i] == multiset(visited)[i] + if i == x then 1 else 0;
    }
  }

  lemma VisitsSame(visited: seq<nat>, was: nat -> bool, now: nat -> bool)
    requires Visits(visited, was)
    requires forall i :: now(i) <==> was(i)
    ensures Visits(visited, now)
  {
  }

  /** The symbols from first to n that meet a condition. */
  ghost function Between(first: nat, n: nat, meets: nat -> bool): nat -> bool {
    i => first <= i < n && meets(i)
  }

  // ----- The GNU kind -----

  /** w is the first symbol of bucket b among those from symoffset on, or 0 if it has none. */
  ghost predicate IsHead(w: Word, b: nat, symoffset: nat, bucketOf: seq<nat>) {
    if w == 0 then forall i :: symoffset <= i < |bucketOf| ==> bucketOf[i] != b
    else symoffset <= w < |bucketOf| && bucketOf[w] == b && forall i :: symoffset <= i < w ==> bucketOf[i] != b
  }

  ghost predicate IsLast(i: nat, bucketOf: seq<nat>)
    requires i < |bucketOf|
  {
    i + 1 == |bucketOf| || bucketOf[i + 1] != bucketOf[i]
  }

  /** The words of a table with longWords words to a long: four of header, the Bloom filter's longs,
      the buckets, and the chain, whose first word belongs to the symbol at symoffset. */
  datatype Gnu = Gnu(words: seq<Word>, longWords: nat)
  {
    predicate HasHeader() { |words| >= 4 }
    function Buckets(): nat requires HasHeader() { words[0] }
    function SymOffset(): nat requires HasHeader() { words[1] }
    function BloomSize(): nat requires HasHeader() { words[2] }

    function BloomAt(idx: nat): nat { 4 + longWords * idx }
    function BucketAt(idx: nat): nat requires HasHeader() { BloomAt(BloomSize()) + idx }
    function ChainAt(idx: nat): int requires HasHeader() { BucketAt(Buckets()) + idx - SymOffset() }

    /** The symbols from symoffset to n, with their buckets: each bucket's symbols are neighbours,
        the bucket's word is the first of them or 0, and the chain's low bit marks the last. */
    ghost predicate Holds(n: nat, bucketOf: seq<nat>) {
      && HasHeader() && 1 <= SymOffset() <= n == |bucketOf| && ChainAt(n) <= |words|
      && (forall i :: SymOffset() <= i < n ==> bucketOf[i] < Buckets())
      && (forall i, j, k :: SymOffset() <= i <= j <= k < n && bucketOf[i] == bucketOf[k] ==> bucketOf[j] == bucketOf[i])
      && (forall b :: 0 <= b < Buckets() ==> IsHead(words[BucketAt(b)], b, SymOffset(), bucketOf))
      && (forall i :: SymOffset() <= i < n ==> (words[ChainAt(i)] % 2 == 1 <==> IsLast(i, bucketOf)))
    }

    /** The symbols of the buckets before b, and those of bucket b before idx. */
    ghost function Passed(b: nat, idx: nat, n: nat, bucketOf: seq<nat>): nat -> bool
      requires HasHeader() && n == |bucketOf|
    {
      i => SymOffset() <= i < n && (bucketOf[i] < b || (bucketOf[i] == b && i < idx))
    }
  }

  /** Goes through the runs of all buckets: every symbol from symoffset on is visited once. */
  method WalkGnu(table: Gnu, ghost n: nat, ghost bucketOf: seq<nat>) returns (visited: seq<nat>)
    requires table.Holds(n, bucketOf)
    ensures Visits(visited, Between(table.SymOffset(), n, _ => true))
  {
    visited := [];
    for bucket := 0 to table.Buckets()
      invariant Visits(visited, table.Passed(bucket, 0, n, bucketOf))
    {
      var idx := table.words[table.BucketAt(bucket)];
      assert IsHead(idx, bucket, table.SymOffset(), bucketOf);
      if idx != 0 {
        visited := WalkRun(table, idx, visited, n, bucketOf);
      } else {
        VisitsSame(visited, table.Passed(bucket, 0, n, bucketOf), table.Passed(bucket + 1, 0, n, bucketOf));
      }
    }
    VisitsSame(visited, table.Passed(table.Buckets(), 0, n, bucketOf), Between(table.SymOffset(), n, _ => true));
  }

  /** From a bucket's first symbol to the one with the low bit set. */
  method WalkRun(table: Gnu, start: Word, before: seq<nat>, ghost n: nat, ghost bucketOf: seq<nat>)
    returns (visited: seq<nat>)
    requires table.Holds(n, bucketOf) && table.SymOffset() <= start < n
    requires IsHead(start, bucketOf[start], table.SymOffset(), bucketOf)
    requires Visits(before, table.Passed(bucketOf[start], 0, n, bucketOf))
    ensures Visits(visited, table.Passed(bucketOf[start] + 1, 0, n, bucketOf))
  {
    visited := before;
    var idx := start;
    ghost var b := bucketOf[start];
    VisitsSame(visited, table.Passed(b, 0, n, bucketOf), table.Passed(b, idx, n, bucketOf));
    while true
      invariant table.SymOffset() <= idx < n && bucketOf[idx] == b
      invariant Visits(visited, table.Passed(b, idx, n, bucketOf))
      decreases n - idx
    {
      VisitsOneMore(visited, idx, table.Passed(b, idx, n, bucketOf), table.Passed(b, idx + 1, n, bucketOf));
      visited := visited + [idx];
      if table.words[table.ChainAt(idx)] % 2 != 0 {
        break;
      }
      idx := idx + 1;
    }
    BucketDone(table, b, idx, n, bucketOf);
    VisitsSame(visited, table.Passed(b, idx + 1, n, bucketOf), table.Passed(b + 1, 0, n, bucketOf));
  }

  lemma BucketDone(table: Gnu, b: nat, idx: nat, n: nat, bucketOf: seq<nat>)
    requires table.Holds(n, bucketOf) && table.SymOffset() <= idx < n && bucketOf[idx] == b
    requires IsLast(idx, bucketOf)
    ensures forall i :: table.SymOffset() <= i < n && bucketOf[i] == b ==> i <= idx
  {
    assert idx + 1 == n || bucketOf[idx + 1] != bucketOf[idx];
  }

  /** A table as the linker lays it out, part after part: the header, the Bloom filter, the buckets'
      first symbols, and for each symbol from symoffset on a word whose low bit marks the last of a
      bucket.  The walk reads the right words of it. */
  lemma GnuLayout(table: Gnu, n: nat, bucketOf: seq<nat>, header: seq<Word>, bloom: seq<Word>, buckets: seq<Word>, chain: seq<Word>)
    requires table.words == header + bloom + buckets + chain
    requires |header| == 4 && header[0] == |buckets| && header[2] * table.longWords == |bloom|
    requires 1 <= header[1] <= n == |bucketOf| && |chain| == n - header[1]
    requires forall i :: header[1] <= i < n ==> bucketOf[i] < |buckets|
    requires forall i, j, k :: header[1] <= i <= j <= k < n && bucketOf[i] == bucketOf[k] ==> bucketOf[j] == bucketOf[i]
    requires forall b :: 0 <= b < |buckets| ==> IsHead(buckets[b], b, header[1], bucketOf)
    requires forall i :: header[1] <= i < n ==> (chain[i - header[1]] % 2 == 1 <==> IsLast(i, bucketOf))
    ensures table.HasHeader() && table.Buckets() == |buckets| && table.SymOffset() == header[1]
    ensures table.Holds(n, bucketOf)
  {
    var words, start := table.words, 4 + |bloom|;
    assert table.words[..4] == header;
    assert table.BloomAt(table.BloomSize()) == start;
    forall b | 0 <= b < |buckets| ensures words[table.BucketAt(b)] == buckets[b] {
      assert table.BucketAt(b) == start + b;
    }
    forall i | header[1] <= i < n ensures words[table.ChainAt(i)] == chain[i - header[1]] {
      assert table.ChainAt(i) == start + |buckets| + (i - header[1]);
    }
  }

  /** One bucket with symbols 1 and 2, and a Bloom filter of one long of two words. */
  lemma OneBucket(table: Gnu)
    requires table == Gnu([1, 1, 1, 0] + [7, 7] + [1] + [10, 11], 2)
    ensures table.Holds(3, [0, 0, 0]) && table.ChainAt(1) == 7 && table.ChainAt(2) == 8
  {
    GnuLayout(table, 3, [0, 0, 0], [1, 1, 1, 0], [7, 7], [1], [10, 11]);
  }

  // ----- The System V kind -----

  /** Two words of header, the buckets, and for each symbol the next one of its bucket or 0. */
  datatype SysV = SysV(words: seq<Word>)
  {
    predicate HasHeader() { |words| >= 2 }
    function Buckets(): nat requires HasHeader() { words[0] }
    function BucketAt(b: nat): nat { 2 + b }
    function ChainAt(i: nat): nat requires HasHeader() { 2 + Buckets() + i }

    predicate Sized(n: nat) { HasHeader() && words[1] == n && |words| >= ChainAt(n) }
    function Next(i: nat, n: nat): Word requires Sized(n) && i < n { words[ChainAt(i)] }
    function Head(b: nat, n: nat): Word requires Sized(n) && b < Buckets() { words[BucketAt(b)] }

    /** The symbols from 1 to n, with their buckets and positions in them: the buckets' chains are
        lists that do not meet. */
    ghost predicate Holds(n: nat, bucketOf: seq<nat>, place: seq<nat>) {
      && Sized(n) && n == |bucketOf| == |place|
      && (forall b: nat :: b < Buckets() ==> HeadFits(b, n, bucketOf, place))
      && (forall i: nat :: 1 <= i < n ==> SymbolFits(i, n, bucketOf, place))
      && (forall i: nat, j: nat :: 1 <= i < n && 1 <= j < n ==> Apart(i, j, bucketOf, place))
    }

    ghost predicate HeadFits(b: nat, n: nat, bucketOf: seq<nat>, place: seq<nat>)
      requires Sized(n) && n == |bucketOf| == |place| && b < Buckets()
    {
      Head(b, n) != 0 ==> Head(b, n) < n && bucketOf[Head(b, n)] == b && place[Head(b, n)] == 0
    }

    /** A symbol's bucket leads to it, directly or from the one before, and it leads to the next. */
    ghost predicate SymbolFits(i: nat, n: nat, bucketOf: seq<nat>, place: seq<nat>)
      requires Sized(n) && n == |bucketOf| == |place| && i < n
    {
      && bucketOf[i] < Buckets() && place[i] < n
      && (Next(i, n) != 0 ==>
            Next(i, n) < n && bucketOf[Next(i, n)] == bucketOf[i] && place[Next(i, n)] == place[i] + 1)
      && (if place[i] == 0 then Head(bucketOf[i], n) == i else exists j :: 1 <= j < n && Next(j, n) == i)
    }

    ghost predicate Apart(i: nat, j: nat, bucketOf: seq<nat>, place: seq<nat>)
      requires i < |bucketOf| == |place| && j < |bucketOf|
    {
      bucketOf[i] == bucketOf[j] && place[i] == place[j] ==> i == j
    }

    /** All of bucket b comes before place p. */
    ghost predicate Ended(b: nat, p: nat, n: nat, bucketOf: seq<nat>, place: seq<nat>)
      requires n == |bucketOf| == |place|
    {
      forall i :: 1 <= i < n && bucketOf[i] == b ==> place[i] < p
    }

    /** The wanted symbols of the buckets before b, and those of bucket b before place p. */
    ghost function Passed(b: nat, p: nat, n: nat, bucketOf: seq<nat>, place: seq<nat>, defined: nat -> bool): nat -> bool
      requires n == |bucketOf| == |place|
    {
      i => 1 <= i < n && defined(i) && (bucketOf[i] < b || (bucketOf[i] == b && place[i] < p))
    }
  }

  /** The buckets' chains as lists that do not meet, in two arrays: the first symbols of the buckets
      and the next ones of the symbols, 0 for none. */
  ghost predicate Lists(buckets: seq<Word>, chain: seq<Word>, bucketOf: seq<nat>, place: seq<nat>)
    requires |chain| == |bucketOf| == |place|
  {
    && (forall b: nat :: b < |buckets| ==> ListStarts(b, buckets, bucketOf, place))
    && (forall i: nat :: 1 <= i < |chain| ==> ListGoesOn(i, chain, bucketOf, place))
    && (forall i: nat :: 1 <= i < |chain| ==> IsInList(i, buckets, chain, bucketOf, place))
    && (forall i: nat, j: nat ::
          1 <= i < |chain| && 1 <= j < |chain| && bucketOf[i] == bucketOf[j] && place[i] == place[j] ==> i == j)
  }

  predicate ListStarts(b: nat, buckets: seq<Word>, bucketOf: seq<nat>, place: seq<nat>)
    requires b < |buckets| && |bucketOf| == |place|
  {
    var w := buckets[b];
    w != 0 ==> w < |place| && bucketOf[w] == b && place[w] == 0
  }

  predicate ListGoesOn(i: nat, chain: seq<Word>, bucketOf: seq<nat>, place: seq<nat>)
    requires i < |chain| == |bucketOf| == |place|
  {
    var w := chain[i];
    w != 0 ==> w < |place| && bucketOf[w] == bucketOf[i] && place[w] == place[i] + 1
  }

  ghost predicate IsInList(i: nat, buckets: seq<Word>, chain: seq<Word>, bucketOf: seq<nat>, place: seq<nat>)
    requires i < |chain| == |bucketOf| == |place|
  {
    && bucketOf[i] < |buckets| && place[i] < |chain|
    && if place[i] == 0 then buckets[bucketOf[i]] == i else exists j :: 1 <= j < |chain| && chain[j] == i
  }

  /** A table as the linker lays it out: the header, the buckets' first symbols, and for each symbol
      the next one.  The walk reads the right words of it. */
  lemma SysVLayout(table: SysV, n: nat, bucketOf: seq<nat>, place: seq<nat>, buckets: seq<Word>, chain: seq<Word>)
    requires table.words == [|buckets|, n] + buckets + chain && n == |chain| == |bucketOf| == |place|
    requires Lists(buckets, chain, bucketOf, place)
    ensures table.Holds(n, bucketOf, place)
  {
    SysVWords(table, n, buckets, chain);
    forall b: nat | b < |buckets| ensures table.HeadFits(b, n, bucketOf, place) {
      assert ListStarts(b, buckets, bucketOf, place);
    }
    forall i: nat | 1 <= i < n ensures table.SymbolFits(i, n, bucketOf, place) {
      SysVSymbol(table, i, n, bucketOf, place, buckets, chain);
    }
  }

  lemma SysVWords(table: SysV, n: nat, buckets: seq<Word>, chain: seq<Word>)
    requires table.words == [|buckets|, n] + buckets + chain && n == |chain|
    ensures table.Sized(n) && table.Buckets() == |buckets|
    ensures forall b: nat | b < |buckets| :: table.Head(b, n) == buckets[b]
    ensures forall i: nat | i < n :: table.Next(i, n) == chain[i]
  {
    forall i: nat | i < n ensures table.Next(i, n) == chain[i] {
      assert table.ChainAt(i) == 2 + |buckets| + i;
    }
  }

  lemma SysVSymbol(table: SysV, i: nat, n: nat, bucketOf: seq<nat>, place: seq<nat>, buckets: seq<Word>, chain: seq<Word>)
    requires table.words == [|buckets|, n] + buckets + chain && n == |chain| == |bucketOf| == |place|
    requires 1 <= i < n && ListGoesOn(i, chain, bucketOf, place) && IsInList(i, buckets, chain, bucketOf, place)
    ensures table.Sized(n) && table.SymbolFits(i, n, bucketOf, place)
  {
    SysVWords(table, n, buckets, chain);
    if place[i] != 0 {
      var j :| 1 <= j < |chain| && chain[j] == i;
      assert table.Next(j, n) == i;
    }
  }

  /** Goes through the buckets and their chains, and processes the symbols that are defined: every
      defined symbol is visited once. */
  method WalkSysV(table: SysV, defined: nat -> bool, ghost n: nat, ghost bucketOf: seq<nat>, ghost place: seq<nat>)
    returns (visited: seq<nat>)
    requires table.Holds(n, bucketOf, place)
    ensures Visits(visited, Between(1, n, defined))
  {
    visited := [];
    for bucket := 0 to table.Buckets()
      invariant Visits(visited, table.Passed(bucket, 0, n, bucketOf, place, defined))
    {
      EmptyBucket(table, bucket, n, bucketOf, place);
      assert table.words[table.BucketAt(bucket)] == table.Head(bucket, n) && table.HeadFits(bucket, n, bucketOf, place);
      visited := WalkChain(table, table.words[table.BucketAt(bucket)], visited, defined, bucket, n, bucketOf, place);
    }
    forall i: nat | 1 <= i < n ensures bucketOf[i] < table.Buckets() {
      assert table.SymbolFits(i, n, bucketOf, place);
    }
    VisitsSame(visited, table.Passed(table.Buckets(), 0, n, bucketOf, place, defined), Between(1, n, defined));
  }

  /** From a bucket's first symbol along the chain to its end. */
  method WalkChain(table: SysV, start: Word, before: seq<nat>, defined: nat -> bool,
                   ghost b: nat, ghost n: nat, ghost bucketOf: seq<nat>, ghost place: seq<nat>)
    returns (visited: seq<nat>)
    requires table.Holds(n, bucketOf, place)
    requires if start == 0 then table.Ended(b, 0, n, bucketOf, place) else start < n && bucketOf[start] == b && place[start] == 0
    requires Visits(before, table.Passed(b, 0, n, bucketOf, place, defined))
    ensures Visits(visited, table.Passed(b + 1, 0, n, bucketOf, place, defined))
  {
    visited := before;
    var idx := start;
    ghost var p := 0;
    while idx != 0
      invariant idx != 0 ==> 1 <= idx < n && bucketOf[idx] == b && place[idx] == p
      invariant Visits(visited, table.Passed(b, p, n, bucketOf, place, defined))
      invariant idx == 0 ==> table.Ended(b, p, n, bucketOf, place)
      decreases if idx == 0 then 0 else n - p
    {
      ChainStep(table, idx, n, bucketOf, place, defined, visited);
      if defined(idx) {
        visited := visited + [idx];
      }
      idx := table.words[table.ChainAt(idx)];
      p := p + 1;
    }
    VisitsSame(visited, table.Passed(b, p, n, bucketOf, place, defined),
               table.Passed(b + 1, 0, n, bucketOf, place, defined));
  }

  /** What visiting one symbol of a chain does to the walk. */
  lemma ChainStep(table: SysV, idx: nat, n: nat, bucketOf: seq<nat>, place: seq<nat>, defined: nat -> bool, visited: seq<nat>)
    requires table.Holds(n, bucketOf, place) && 1 <= idx < n
    requires Visits(visited, table.Passed(bucketOf[idx], place[idx], n, bucketOf, place, defined))
    ensures Visits(if defined(idx) then visited + [idx] else visited,
                   table.Passed(bucketOf[idx], place[idx] + 1, n, bucketOf, place, defined))
    ensures
      var next := table.words[table.ChainAt(idx)];
      if next == 0 then table.Ended(bucketOf[idx], place[idx] + 1, n, bucketOf, place)
      else next < n && bucketOf[next] == bucketOf[idx] && place[next] == place[idx] + 1
    ensures place[idx] < n
  {
    assert table.SymbolFits(idx, n, bucketOf, place);
    assert table.words[table.ChainAt(idx)] == table.Next(idx, n);
    forall i: nat | 1 <= i < n && bucketOf[i] == bucketOf[idx] && place[i] == place[idx] ensures i == idx {
      assert table.Apart(i, idx, bucketOf, place);
    }
    var was := table.Passed(bucketOf[idx], place[idx], n, bucketOf, place, defined);
    var now := table.Passed(bucketOf[idx], place[idx] + 1, n, bucketOf, place, defined);
    if defined(idx) {
      VisitsOneMore(visited, idx, was, now);
    } else {
      VisitsSame(visited, was, now);
    }
    if table.Next(idx, n) == 0 {
      forall i | 1 <= i < n && bucketOf[i] == bucketOf[idx] ensures place[i] <= place[idx] {
        NoneAfterLast(table, idx, i, n, bucketOf, place);
      }
    }
  }

  lemma EmptyBucket(table: SysV, b: nat, n: nat, bucketOf: seq<nat>, place: seq<nat>)
    requires table.Holds(n, bucketOf, place) && b < table.Buckets()
    ensures table.Head(b, n) == 0 ==> table.Ended(b, 0, n, bucketOf, place)
  {
    forall i | 1 <= i < n ensures bucketOf[i] < table.Buckets() && table.Head(bucketOf[i], n) != 0 {
      HasHead(table, i, n, bucketOf, place);
    }
  }

  lemma {:induction false} HasHead(table: SysV, i: nat, n: nat, bucketOf: seq<nat>, place: seq<nat>)
    requires table.Holds(n, bucketOf, place) && 1 <= i < n
    ensures bucketOf[i] < table.Buckets() && table.Head(bucketOf[i], n) != 0
    decreases place[i]
  {
    assert table.SymbolFits(i, n, bucketOf, place);
    if place[i] > 0 {
      var j :| 1 <= j < n && table.Next(j, n) == i;
      assert table.SymbolFits(j, n, bucketOf, place);
      HasHead(table, j, n, bucketOf, place);
    }
  }

  lemma {:induction false} NoneAfterLast(table: SysV, last: nat, i: nat, n: nat, bucketOf: seq<nat>, place: seq<nat>)
    requires table.Holds(n, bucketOf, place) && 1 <= i < n && 1 <= last < n && bucketOf[i] == bucketOf[last]
    requires table.Next(last, n) == 0
    ensures place[i] <= place[last]
    decreases place[i]
  {
    if place[i] > place[last] {
      assert table.SymbolFits(i, n, bucketOf, place);
      var j :| 1 <= j < n && table.Next(j, n) == i;
      assert table.SymbolFits(j, n, bucketOf, place) && table.Apart(j, last, bucketOf, place);
      NoneAfterLast(table, last, j, n, bucketOf, place);
    }
  }

  /** Both walks visit the same symbols, each once, exactly when the symbols from symoffset on are
      the defined ones. */
  lemma WalksAgree(gnu: seq<nat>, sysv: seq<nat>, symoffset: nat, n: nat, defined: nat -> bool)
    requires Visits(gnu, Between(symoffset, n, _ => true)) && Visits(sysv, Between(1, n, defined)) && symoffset >= 1
    ensures multiset(gnu) == multiset(sysv) <==> forall i :: 1 <= i < n ==> (defined(i) <==> symoffset <= i)
  {
    var a, b := Between(symoffset, n, _ => true), Between(1, n, defined);
    if multiset(gnu) == multiset(sysv) {
      forall i | 1 <= i < n ensures defined(i) <==> symoffset <= i {
        assert multiset(gnu)[i] == if a(i) then 1 else 0;
        assert multiset(sysv)[i] == if b(i) then 1 else 0;
      }
    } else if forall i :: 1 <= i < n ==> (defined(i) <==> symoffset <= i) {
      VisitsSame(gnu, a, b);
      assert forall i: nat :: multiset(gnu)[i] == multiset(sysv)[i];
    }
  }
}
