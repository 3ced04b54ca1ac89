/**
 Page protection around a patch: the cached map of the address space, looked up by the end of each
 range, and the window in which a few bytes are made writable and then given their protection back.
 */
module Windows {
  import opened Options

  type Address = nat
  type Protection = int

  const READ_WRITE: Protection := 3

  /** PROT_READ is the lowest bit, and PROT_WRITE the next. */
  predicate Readable(prot: Protection) { prot % 2 == 1 }

  predicate Writable(prot: Protection) { prot / 2 % 2 == 1 }

  /** A line of /proc/self/maps. */
  datatype Line = Line(low: Address, high: Address, prot: Protection)
  {
    predicate Has(p: Address) { low <= p < high }
  }

  datatype ProtRange = ProtRange(low: Address, prot: Protection)

  // ----- The cached map of the address space -----

  predicate Disjoint(lines: seq<Line>) {
    && (forall i :: 0 <= i < |lines| ==> lines[i].low < lines[i].high)
    && forall i, j :: 0 <= i < j < |lines| ==> lines[i].high <= lines[j].low || lines[j].high <= lines[i].low
  }

  /** The plain search that the cache stands for. */
  function Search(lines: seq<Line>, p: Address): Option<Protection> {
    if lines == [] then None
    else if lines[0].Has(p) then Some(lines[0].prot)
    else Search(lines[1..], p)
  }

  /** The smallest of the given numbers. */
  ghost predicate IsLeast(ks: set<Address>, k: Address) {
    k in ks && forall k' <- ks :: k <= k'
  }

  lemma {:induction false} LeastExists(ks: set<Address>)
    requires ks != {}
    ensures exists k :: IsLeast(ks, k)
    decreases |ks|
  {
    var x :| x in ks;
    var others := ks - {x};
    if others == {} {
      assert ks == {x};
      assert IsLeast(ks, x);
    } else {
      LeastExists(others);
      var k :| IsLeast(others, k);
      assert forall k' <- ks :: k' == x || k' in others;
      assert IsLeast(ks, if x < k then x else k);
    }
  }

  class MemoryProtection {
    /** Keyed by the end of the range. */
    var ranges: map<Address, ProtRange>

    ghost predicate Describes(lines: seq<Line>)
      reads this
    {
      Cached(ranges, lines)
    }

    constructor (lines: seq<Line>)
      requires Disjoint(lines)
      ensures Describes(lines)
    {
      ranges := map[];
      new;
      for i := 0 to |lines|
        invariant Describes(lines[..i])
      {
        var l := lines[i];
        ranges := ranges[l.high := ProtRange(l.low, l.prot)];
        assert lines[..i + 1] == lines[..i] + [l];
      }
      assert lines[..|lines|] == lines;
    }

    /** The range with the smallest end above p has p's protection, or there is none. */
    method ProtectionFor(p: Address, ghost lines: seq<Line>) returns (r: Option<Protection>)
      requires Disjoint(lines) && Describes(lines)
      ensures r == Search(lines, p)
    {
      var above := set k <- ranges | p < k;
      if above == {} {
        assert forall k <- ranges :: k <= p || k in above;
        NothingAbove(ranges, lines, p);
        return None;
      }
      LeastExists(above);
      ghost var least :| IsLeast(above, least);
      var k :| k in above && forall k' <- above :: k <= k';
      assert forall k' <- ranges :: p < k' ==> k' in above;
      UpperBoundFinds(ranges, lines, p, k);
      r := if ranges[k].low <= p then Some(ranges[k].prot) else None;
    }
  }

  ghost predicate Cached(ranges: map<Address, ProtRange>, lines: seq<Line>) {
    && (forall i :: 0 <= i < |lines| ==> Keyed(ranges, lines[i]))
    && forall high <- ranges :: Line(ranges[high].low, high, ranges[high].prot) in lines
  }

  lemma NothingAbove(ranges: map<Address, ProtRange>, lines: seq<Line>, p: Address)
    requires Cached(ranges, lines) && forall k <- ranges :: k <= p
    ensures Search(lines, p) == None
  {
    forall l <- lines ensures !l.Has(p) {
      var i :| 0 <= i < |lines| && lines[i] == l;
      assert Keyed(ranges, lines[i]);
    }
    SearchNone(lines, p);
  }

  /** The least end above p decides: no other range can hold p. */
  lemma UpperBoundFinds(ranges: map<Address, ProtRange>, lines: seq<Line>, p: Address, k: Address)
    requires Disjoint(lines) && Cached(ranges, lines)
    requires k in ranges && p < k && forall k' <- ranges :: p < k' ==> k <= k'
    ensures Search(lines, p) == if ranges[k].low <= p then Some(ranges[k].prot) else None
  {
    var l := Line(ranges[k].low, k, ranges[k].prot);
    assert l in lines;
    if l.low <= p {
      SearchFinds(lines, p, l);
    } else {
      var j :| 0 <= j < |lines| && lines[j] == l;
      forall m <- lines ensures !m.Has(p) {
        var i :| 0 <= i < |lines| && lines[i] == m;
        assert Keyed(ranges, lines[i]);
        assert i == j || m.high <= l.low || l.high <= m.low;
      }
      SearchNone(lines, p);
    }
  }

  predicate Keyed(ranges: map<Address, ProtRange>, l: Line) {
    l.high in ranges && ranges[l.high] == ProtRange(l.low, l.prot)
  }

  lemma {:induction false} SearchNone(lines: seq<Line>, p: Address)
    requires forall l <- lines :: !l.Has(p)
    ensures Search(lines, p) == None
  {
    if lines != [] {
      SearchNone(lines[1..], p);
    }
  }

  lemma {:induction false} SearchFinds(lines: seq<Line>, p: Address, l: Line)
    requires Disjoint(lines) && l in lines && l.Has(p)
    ensures Search(lines, p) == Some(l.prot)
  {
    if !lines[0].Has(p) {
      assert Disjoint(lines[1..]) by {
        assert forall i :: 0 <= i < |lines[1..]| ==> lines[1..][i] == lines[i + 1];
      }
      SearchFinds(lines[1..], p, l);
    } else {
      var i :| 0 <= i < |lines| && lines[i] == l;
    }
  }

  // ----- Windows -----

  type Pages = map<nat, Protection>

  /** Pages first to last get a new protection. */
  function Repaint(pages: Pages, first: nat, last: int, perms: Protection): (r: Pages)
    ensures r.Keys == pages.Keys
  {
    map k <- pages :: if first <= k <= last then perms else pages[k]
  }

  predicate Mapped(pages: Pages, first: nat, last: int) {
    forall k :: first <= k <= last ==> k in pages
  }

  /** A window over len bytes from start, and the protection it gives back. */
  datatype Window = Window(start: Address, len: nat, orig: Protection)
  {
    function First(size: nat): nat requires size > 0 { start / size }
    function Last(size: nat): nat requires size > 0 { (start + len) / size }

    function Opened(size: nat, pages: Pages): Pages requires size > 0 {
      Repaint(pages, First(size), Last(size), READ_WRITE)
    }
    function Closed(size: nat, pages: Pages): Pages requires size > 0 {
      Repaint(pages, First(size), Last(size), orig)
    }
    predicate Has(p: Address) { start <= p < start + len }

    /** The page holds one of the window's bytes. */
    ghost predicate Overlaps(size: nat, k: nat) {
      exists p: nat :: Has(p) && k * size <= p < (k + 1) * size
    }
  }

  class AddressSpace {
    const size: nat
    var pages: Pages

    constructor (size: nat, pages: Pages)
      ensures this.size == size && this.pages == pages
    {
      this.size, this.pages := size, pages;
    }

    /** The system call on whole pages; it fails if one of them is not mapped. */
    method MProtect(at: Address, len: nat, perms: Protection) returns (ok: bool)
      requires size > 0 && at % size == 0 && len % size == 0 && len > 0
      modifies this
      ensures ok == Mapped(old(pages), at / size, at / size + len / size - 1)
      ensures pages == if ok then Repaint(old(pages), at / size, at / size + len / size - 1, perms) else old(pages)
    {
      var first, last := at / size, at / size + len / size - 1;
      ok := forall k :: first <= k <= last ==> k in pages;
      if ok {
        pages := Repaint(pages, first, last, perms);
      }
    }

    /** Page-aligns the bytes and asks for their protection; a failure aborts the process. */
    method Protect(perms: Protection, start: Address, len: nat) returns (ok: bool)
      requires size > 0
      modifies this
      ensures ok == Mapped(old(pages), start / size, (start + len) / size)
      ensures pages == if ok then Repaint(old(pages), start / size, (start + len) / size, perms) else old(pages)
    {
      var end := start + len;
      var startPage, endPage := start - start % size, end - end % size;
      Aligned(start, end, size);
      ok := MProtect(startPage, endPage - startPage + size, perms);
    }

    /** Notes the protection of the first byte and opens the window. */
    method Open(prot: MemoryProtection, start: Address, len: nat, ghost lines: seq<Line>)
      returns (w: Option<Window>, ok: bool)
      requires size > 0 && Disjoint(lines) && prot.Describes(lines)
      modifies this
      ensures w.None? <==> Search(lines, start) == None
      ensures w.None? ==> ok && pages == old(pages)
      ensures w.Some? ==>
        && w.value == Window(start, len, Search(lines, start).value)
        && ok == Mapped(old(pages), w.value.First(size), w.value.Last(size))
        && (ok ==> pages == w.value.Opened(size, old(pages)))
    {
      var orig := prot.ProtectionFor(start, lines);
      ok := true;
      if orig.None? {
        w := None;
      } else {
        w := Some(Window(start, len, orig.value));
        ok := Protect(READ_WRITE, start, len);
      }
    }

    method Close(w: Window) returns (ok: bool)
      requires size > 0
      modifies this
      ensures ok == Mapped(old(pages), w.First(size), w.Last(size))
      ensures ok ==> pages == w.Closed(size, old(pages))
    {
      ok := Protect(w.orig, w.start, w.len);
    }
  }

  lemma Aligned(start: nat, end: nat, size: nat)
    requires size > 0 && start <= end
    ensures
      var a, n := start - start % size, end - end % size - (start - start % size) + size;
      && 0 <= a && 0 < n && a % size == 0 && n % size == 0
      && a / size == start / size && a / size + n / size - 1 == end / size
  {
    var a, q, q' := start - start % size, start / size, end / size;
    assert a == size * q;
    assert end - end % size == size * q';
    QuotientsOrdered(start, end, size);
    var n := size * q' - size * q + size;
    assert n == size * (q' - q + 1) by { Distributes(size, q', q); }
    MultipleDivides(q, size);
    MultipleDivides(q' - q + 1, size);
  }

  lemma Below(a: nat, k: nat, size: nat)
    requires size > 0
    ensures a < (k + 1) * size <==> a / size <= k
  {
    var q := a / size;
    Distributes(size, k, 0);
    Distributes(size, q, 0);
    if q <= k { Scales(size, q, k); } else { Scales(size, k + 1, q); }
  }

  lemma QuotientsOrdered(a: nat, b: nat, size: nat)
    requires size > 0 && a <= b
    ensures a / size <= b / size
  {
    Below(a, b / size, size);
    Below(b, b / size, size);
  }

  lemma Scales(size: nat, a: nat, b: nat)
    requires a <= b
    ensures size * a <= size * b
  {
  }

  lemma Distributes(size: nat, a: int, b: int)
    ensures size * (a - b + 1) == size * a - size * b + size
  {
  }

  lemma MultipleDivides(q: nat, size: nat)
    requires size > 0
    ensures (size * q) % size == 0 && (size * q) / size == q
  {
    var x := size * q;
    var r := x % size;
    assert x == size * (x / size) + r;
    if x / size < q {
      Scales(size, x / size + 1, q);
      Distributes(size, x / size, 0);
    } else if x / size > q {
      Scales(size, q + 1, x / size);
      Distributes(size, q, 0);
    }
  }

  // ----- What a window covers and leaves -----

  lemma PageOf(p: nat, k: nat, size: nat)
    requires size > 0
    ensures k * size <= p < (k + 1) * size <==> p / size == k
  {
    var q := p / size;
    assert p == size * q + p % size;
    Distributes(size, k, 0);
    if q < k {
      Scales(size, q + 1, k);
      Distributes(size, q, 0);
    } else if k < q {
      Scales(size, k + 1, q);
    }
  }

  lemma Above(b: nat, k: nat, size: nat)
    requires size > 0
    ensures k * size < b <==> k < b / size || (k == b / size && b % size != 0)
  {
    var q := b / size;
    assert b == size * q + b % size;
    Distributes(size, q, 0);
    Distributes(size, k, 0);
    if k < q { Scales(size, k + 1, q); } else if q < k { Scales(size, q + 1, k); }
  }

  lemma OverlapsIff(w: Window, size: nat, k: nat)
    requires size > 0 && w.len > 0
    ensures w.Overlaps(size, k) <==> w.start < (k + 1) * size && k * size < w.start + w.len
  {
    var low, high := k * size, (k + 1) * size;
    assert low < high by { Distributes(size, k, 0); }
    if w.start < high && low < w.start + w.len {
      var p := if low <= w.start then w.start else low;
      assert w.Has(p) && low <= p < high;
    }
  }

  /** The pages made writable are those that hold a byte of the window, and one more exactly when the
      window ends on a page boundary. */
  lemma TouchedPages(w: Window, size: nat, k: nat)
    requires size > 0 && w.len > 0
    ensures w.First(size) <= k <= w.Last(size)
       <==> w.Overlaps(size, k) || ((w.start + w.len) % size == 0 && k == w.Last(size))
  {
    Below(w.start, k, size);
    Above(w.start + w.len, k, size);
    OverlapsIff(w, size, k);
    QuotientsOrdered(w.start, w.start + w.len, size);
  }

  /** Inside the window all its bytes can be written, and no other page's protection is touched. */
  lemma WindowWrites(w: Window, size: nat, pages: Pages, p: Address)
    requires size > 0 && Mapped(pages, w.First(size), w.Last(size)) && w.start <= p < w.start + w.len
    ensures p / size in pages && w.Opened(size, pages)[p / size] == READ_WRITE
    ensures Readable(READ_WRITE) && Writable(READ_WRITE)
  {
    QuotientsOrdered(w.start, p, size);
    QuotientsOrdered(p, w.start + w.len, size);
  }

  /** Opening and closing gives every page its protection back exactly when the pages touched all
      had the protection that was noted. */
  lemma CloseRestores(w: Window, size: nat, pages: Pages)
    requires size > 0 && Mapped(pages, w.First(size), w.Last(size))
    ensures w.Closed(size, w.Opened(size, pages)) == pages
       <==> forall k :: w.First(size) <= k <= w.Last(size) ==> pages[k] == w.orig
  {
    var after := w.Closed(size, w.Opened(size, pages));
    if after == pages {
      forall k | w.First(size) <= k <= w.Last(size)
        ensures pages[k] == w.orig
      {
        assert k in pages && after[k] == w.orig;
      }
    }
  }

  /** The cached lines are true of the pages. */
  ghost predicate Accurate(lines: seq<Line>, size: nat, pages: Pages) {
    && size > 0
    && forall p: Address {:trigger Search(lines, p)} ::
      Search(lines, p) == if p / size in pages then Some(pages[p / size]) else None
  }

  /** Every page touched is mapped, with one protection. */
  predicate Uniform(start: Address, len: nat, size: nat, pages: Pages)
    requires size > 0
  {
    && Mapped(pages, start / size, (start + len) / size)
    && forall k :: start / size <= k <= (start + len) / size ==> pages[k] == pages[start / size]
  }

  datatype Effect = Thrown | Aborted | Done(pages: Pages)

  /** A row of windows opened and closed one after the other over one cached map, as patching the
      slots of a mock does. */
  function Windowed(spans: seq<(Address, nat)>, lines: seq<Line>, size: nat, pages: Pages): Effect
    requires size > 0
  {
    if spans == [] then Done(pages)
    else
      var (start, len) := spans[0];
      var orig := Search(lines, start);
      if orig.None? then Thrown
      else
        var w := Window(start, len, orig.value);
        if !Mapped(pages, w.First(size), w.Last(size)) then Aborted
        else Windowed(spans[1..], lines, size, w.Closed(size, w.Opened(size, pages)))
  }

  /** When the pages of each window share a protection, patching any number of slots over one cached
      map runs to the end and leaves the protection of all memory as it was. */
  lemma {:induction false} WindowsRestore(spans: seq<(Address, nat)>, lines: seq<Line>, size: nat, pages: Pages)
    requires size > 0 && Accurate(lines, size, pages)
    requires forall s <- spans :: Uniform(s.0, s.1, size, pages)
    ensures Windowed(spans, lines, size, pages) == Done(pages)
  {
    if spans != [] {
      var (start, len) := spans[0];
      assert Uniform(spans[0].0, spans[0].1, size, pages);
      QuotientsOrdered(start, start + len, size);
      assert start / size in pages;
      var w := Window(start, len, Search(lines, start).value);
      CloseRestores(w, size, pages);
      assert w.Closed(size, w.Opened(size, pages)) == pages;
      assert Windowed(spans, lines, size, pages) == Windowed(spans[1..], lines, size, pages);
      assert forall s <- spans[1..] :: s in spans;
      WindowsRestore(spans[1..], lines, size, pages);
    }
  }

  /** A word that ends a page needs the next page mapped as well: with the cached map accurate, the
      window on it aborts exactly when it is not. */
  lemma LastWordOfPage(k: nat, n: nat, lines: seq<Line>, size: nat, pages: Pages)
    requires size > 0 && Accurate(lines, size, pages) && k in pages && 0 < n <= size
    ensures Windowed([((k + 1) * size - n, n)], lines, size, pages) == Aborted <==> k + 1 !in pages
  {
    var start := (k + 1) * size - n;
    Distributes(size, k, 0);
    PageOf(start, k, size);
    PageOf(start + n, k + 1, size);
    var w := Window(start, n, pages[k]);
    assert Search(lines, start) == Some(pages[k]);
    assert w.First(size) == k && w.Last(size) == k + 1;
  }

  /** One page is mapped, to be read and written, and the cached map says so. */
  predicate OnePage(lines: seq<Line>, pages: Pages) {
    lines == [Line(4096, 8192, 3)] && pages == map[1 := 3]
  }

  /** Patching the last word of that page aborts the process. */
  lemma OnePageAborts(lines: seq<Line>, pages: Pages)
    requires OnePage(lines, pages)
    ensures Disjoint(lines) && Accurate(lines, 4096, pages) && Windowed([(8184, 8)], lines, 4096, pages) == Aborted
  {
    assert lines[1..] == [];
    forall p: Address
      ensures Search(lines, p) == if p / 4096 in pages then Some(pages[p / 4096]) else None
    {
      assert Search(lines[1..], p) == None;
      PageOf(p, 1, 4096);
    }
    LastWordOfPage(1, 8, lines, 4096, pages);
  }
}
