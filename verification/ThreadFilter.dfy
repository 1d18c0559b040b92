/** The thread filter of threadFilter.cpp used by one thread at a time: it refines a set of thread
    ids. `w` is the number of words of a page, BITMAP_SIZE / 8. */
module ThreadFilter {
  import opened Words
  import opened Bits
  import opened BitmapPages

  /** Strictly ascending. */
  predicate Ascending(v: seq<int>) {
    forall i, j :: 0 <= i < j < |v| ==> v[i] < v[j]
  }

  /** `v` lists exactly the members below `bound`, in order. */
  ghost predicate Collected(w: nat, pages: seq<Page>, v: seq<int>, bound: nat)
    requires w > 0
  {
    && Ascending(v)
    && (forall id :: id in v ==> 0 <= id < bound)
    && (forall id: nat :: id < bound ==> (id in v <==> Has(w, pages, id)))
  }

  lemma CollectOne(w: nat, pages: seq<Page>, v: seq<int>, bound: nat, id: nat)
    requires w > 0 && Collected(w, pages, v, bound) && bound <= id && Has(w, pages, id)
    requires forall k: nat :: bound <= k < id ==> !Has(w, pages, k)
    ensures Collected(w, pages, v + [id], id + 1)
  {
    hide Has;
    var v' := v + [id];
    forall i, j | 0 <= i < j < |v'| ensures v'[i] < v'[j] {
      if j == |v| {
        assert v[i] in v;
      }
    }
    forall k: nat | k < id + 1 ensures k in v + [id] <==> Has(w, pages, k) {
      if k < bound {
      } else if k < id {
        assert k !in v;
      }
    }
  }

  lemma CollectNone(w: nat, pages: seq<Page>, v: seq<int>, bound: nat, next: nat)
    requires w > 0 && Collected(w, pages, v, bound) && bound <= next
    requires forall k: nat :: bound <= k < next ==> !Has(w, pages, k)
    ensures Collected(w, pages, v, next)
  {
  }

  function WordAt(w: nat, pages: seq<Page>, i: nat, j: nat): nat
    requires Shaped(w, pages) && i < |pages| && pages[i].Page? && j < w
  {
    assert ShapedPage(w, pages[i].words);
    pages[i].words[j]
  }

  /** The ids of a word. */
  lemma IdInWord(w: nat, pages: seq<Page>, i: nat, j: nat, k: nat)
    requires Shaped(w, pages) && i < |pages| && pages[i].Page? && j < w && k < 64
    ensures Has(w, pages, IdAt(w, i, j, 0) + k) <==> Bit(WordAt(w, pages, i, j), k)
  {
    assert IdAt(w, i, j, 0) + k == IdAt(w, i, j, k);
    PlaceOfId(w, i, j, k);
    assert ShapedPage(w, pages[i].words);
  }

  lemma NoPageNoIds(w: nat, pages: seq<Page>, i: nat, id: nat)
    requires w > 0 && i < |pages| && pages[i].NoPage? && Times(i, Ids(w)) <= id < Times(i + 1, Ids(w))
    ensures !Has(w, pages, id)
  {
    assert Times(i + 1, Ids(w)) == Times(i, Ids(w)) + Ids(w);
    RemainderUnique(id, Ids(w), i, id - Times(i, Ids(w)));
  }

  class ThreadFilter {
    const w: nat
    const maxThreadId: nat
    var pages: seq<Page>
    var size: int

    ghost predicate Valid()
      reads this
    {
      w > 0 && Shaped(w, pages) && size == |Members(w, pages)| && Times(|pages|, 8 * w) >= maxThreadId
    }

    ghost function View(): set<nat>
      reads this
      requires w > 0
    {
      Members(w, pages)
    }

    /** One page exists from the start; there are ceil(maxThreadId / (8 * w)) places for pages. */
    constructor (w: nat, maxThreadId: nat)
      requires w > 0 && 0 < maxThreadId < 0x8000_0000
      ensures Valid() && View() == {} && this.w == w && this.maxThreadId == maxThreadId
    {
      this.w, this.maxThreadId := w, maxThreadId;
      var n := Quot(maxThreadId + 8 * w - 1, 8 * w);
      PlacesSuffice(maxThreadId, 8 * w);
      pages := seq(n, i => if i == 0 then Page(ZeroWords(w)) else NoPage);
      size := 0;
      new;
      ZeroesAreEmpty(w, pages);
    }

    /** bitmap(thread_id): the id is compared as an unsigned number. */
    function PageFor(id: int32): Option<nat>
      reads this
      requires w > 0
    {
      if U32Of(id) >= maxThreadId then None
      else
        var i := PageOf(w, U32Of(id));
        if i < |pages| && pages[i].Page? then Some(i) else None
    }

    /** accept: true exactly for the ids in range that are members; ids out of range, among them
        the negative ones, are not accepted. */
    method Accept(id: int32) returns (r: bool)
      requires Valid()
      ensures r <==> U32Of(id) < maxThreadId && U32Of(id) in View()
    {
      var page := PageFor(id);
      r := false;
      if page.Some? {
        var word := pages[page.value].words[WordOf(w, U32Of(id))];
        TestBit(word, BitOf(U32Of(id)));
        r := And(word, Pow2(BitOf(U32Of(id)))) != 0;
      }
    }

    /** add; the place for the page of the id must exist, as it does for ids in range. */
    method Add(id: int32)
      requires Valid() && PageOf(w, U32Of(id)) < |pages|
      modifies this
      ensures Valid() && View() == old(View()) + {U32Of(id)} && |pages| == |old(pages)|
    {
      hide PageOf, WordOf, BitOf, Pow2, Has, And, U32Of, Bit, SetBit, Members, Times, Shaped;
      var u := U32Of(id);
      if PageFor(id).None? {
        MakePage(u);
      }
      BitsAreMembers(w, pages, u);
      BitsCount(w, pages, u);
      HasIsBit(w, pages, u);
      var word := pages[PageOf(w, u)].words[WordOf(w, u)];
      TestBit(word, BitOf(u));
      pages := SetBit(w, pages, u);
      if And(word, Pow2(BitOf(u))) == 0 {
        size := size + 1;
      }
    }

    /** A zeroed page, unless there is one already. */
    method MakePage(u: nat)
      requires Valid() && PageOf(w, u) < |pages|
      modifies this
      ensures Valid() && View() == old(View()) && |pages| == |old(pages)| && pages[PageOf(w, u)].Page?
    {
      hide PageOf, Members, Times, Shaped;
      var i := PageOf(w, u);
      if pages[i].NoPage? {
        EmptyPageAddsNothing(w, pages, i);
        pages := pages[i := Page(ZeroWords(w))];
      }
    }

    /** remove */
    method Remove(id: int32)
      requires Valid()
      modifies this
      ensures Valid() && |pages| == |old(pages)|
      ensures U32Of(id) < maxThreadId ==> View() == old(View()) - {U32Of(id)}
      ensures U32Of(id) >= maxThreadId ==> View() == old(View())
    {
      assert w > 0;
      hide PageOf, WordOf, BitOf, Pow2, Has, And, U32Of, Bit, ClearBit, Shaped, Members, Times;
      var u := U32Of(id);
      var page := PageFor(id);
      if page.None? {
        if u < maxThreadId {
          NotPaged(w, pages, u);
        }
        return;
      }
      BitsAreMembers(w, pages, u);
      BitsCount(w, pages, u);
      HasIsBit(w, pages, u);
      var word := pages[page.value].words[WordOf(w, u)];
      TestBit(word, BitOf(u));
      pages := ClearBit(w, pages, u);
      if And(word, Pow2(BitOf(u))) != 0 {
        size := size - 1;
      }
    }

    /** clear: every page is zeroed and kept. */
    method Clear()
      requires Valid()
      modifies this
      ensures Valid() && View() == {} && size == 0
    {
      var i := 0;
      while i < |pages|
        invariant 0 <= i <= |pages| == |old(pages)|
        invariant forall k :: 0 <= k < i ==> pages[k].NoPage? || pages[k].words == ZeroWords(w)
        invariant w > 0
      {
        if pages[i].Page? {
          pages := pages[i := Page(ZeroWords(w))];
        }
        i := i + 1;
      }
      size := 0;
      ZeroesAreEmpty(w, pages);
    }

    /** collect: all members, each once, in ascending order. */
    method Collect() returns (v: seq<int>)
      requires Valid()
      ensures Ascending(v) && |v| == size
      ensures forall id :: id in v <==> 0 <= id && id in View()
    {
      v := [];
      var i := 0;
      while i < |pages|
        invariant 0 <= i <= |pages| && Collected(w, pages, v, Times(i, Ids(w)))
      {
        NextPage(w, i);
        if pages[i].Page? {
          v := CollectPage(i, v);
        } else {
          forall id: nat | Times(i, Ids(w)) <= id < Times(i + 1, Ids(w)) ensures !Has(w, pages, id) {
            NoPageNoIds(w, pages, i, id);
          }
          CollectNone(w, pages, v, Times(i, Ids(w)), Times(i + 1, Ids(w)));
        }
        i := i + 1;
      }
      AllCollected(w, pages, v);
    }

    method CollectPage(i: nat, v0: seq<int>) returns (v: seq<int>)
      requires Valid() && i < |pages| && pages[i].Page? && Collected(w, pages, v0, Times(i, Ids(w)))
      ensures Collected(w, pages, v, Times(i + 1, Ids(w)))
    {
      v := v0;
      var startId := Times(i, Ids(w));
      assert ShapedPage(w, pages[i].words);
      hide Collected, Shaped;
      var j := 0;
      while j < w
        invariant 0 <= j <= w && Collected(w, pages, v, startId + j * 64)
      {
        v := CollectWord(i, j, v);
        j := j + 1;
      }
      NextPage(w, i);
    }

    /** The ids of one word, lowest bit first. */
    method CollectWord(i: nat, j: nat, v0: seq<int>) returns (v: seq<int>)
      requires Shaped(w, pages) && i < |pages| && pages[i].Page? && j < w && Collected(w, pages, v0, IdAt(w, i, j, 0))
      ensures Collected(w, pages, v, IdAt(w, i, j, 64))
    {
      hide Collected, Shaped, IdAt, BitsFrom, Ctz, And, WordAt;
      v := v0;
      var base := IdAt(w, i, j, 0);
      var word: nat := WordAt(w, pages, i, j);
      ghost var b: nat := 0;
      WordStart(w, pages, i, j);
      while word != 0
        invariant b <= 64 && Collected(w, pages, v, base + b)
        invariant BitsFrom(WordAt(w, pages, i, j), word, b)
        decreases 64 - b
      {
        CollectBit(w, pages, v, i, j, word, b);
        b := Ctz(word) + 1;
        v := v + [base + Ctz(word)];
        word := And(word, word - 1);
      }
      CollectRest(w, pages, v, i, j, b);
    }
  }

  lemma PlacesSuffice(m: nat, d: nat)
    requires d > 0
    ensures Times(Quot(m + d - 1, d), d) >= m
  {
    DivMod(m + d - 1, d);
  }

  lemma NotPaged(w: nat, pages: seq<Page>, id: nat)
    requires w > 0 && !(PageOf(w, id) < |pages| && pages[PageOf(w, id)].Page?)
    ensures !Has(w, pages, id)
  {
  }

  /** Ids in range have a place for their page. */
  lemma InRangeHasPlace(w: nat, places: nat, maxThreadId: nat, id: nat)
    requires w > 0 && Times(places, 8 * w) >= maxThreadId && id < maxThreadId
    ensures PageOf(w, id) < places
  {
    var n := Ids(w);
    DivMod(id, n);
    assert Times(places, 8 * w) * 8 == places * n;
    if places <= id / n {
      AtLeastTimes(places, id / n, n);
    }
  }

  lemma AtLeastTimes(a: nat, b: nat, n: nat)
    requires a <= b
    ensures a * n <= b * n
  {
    assert (b - a) * n == b * n - a * n;
  }

  lemma HasIsBit(w: nat, pages: seq<Page>, id: nat)
    requires Shaped(w, pages) && PageOf(w, id) < |pages| && pages[PageOf(w, id)].Page?
    ensures |pages[PageOf(w, id)].words| == w
    ensures Has(w, pages, id) <==> Bit(pages[PageOf(w, id)].words[WordOf(w, id)], BitOf(id))
  {
    assert ShapedPage(w, pages[PageOf(w, id)].words);
  }

  lemma NextPage(w: nat, i: nat)
    ensures Times(i + 1, Ids(w)) == Times(i, Ids(w)) + w * 64
  {
  }

  /** `word` has the bits of `all` from `b` on. */
  ghost predicate BitsFrom(all: nat, word: nat, b: nat) {
    forall k: nat :: Bit(word, k) <==> Bit(all, k) && k >= b
  }

  lemma WordStart(w: nat, pages: seq<Page>, i: nat, j: nat)
    requires Shaped(w, pages) && i < |pages| && pages[i].Page? && j < w
    ensures BitsFrom(WordAt(w, pages, i, j), WordAt(w, pages, i, j), 0)
  {
  }

  /** The lowest bit that is left is the next member at or after `b`. */
  lemma NextBit(all: nat, word: nat, b: nat)
    requires word > 0 && all < Pow2(64) && BitsFrom(all, word, b)
    ensures b <= Ctz(word) < 64 && Bit(all, Ctz(word))
    ensures forall k: nat :: b <= k < Ctz(word) ==> !Bit(all, k)
    ensures BitsFrom(all, And(word, word - 1), Ctz(word) + 1)
  {
    hide Pow2, And, Ctz, Bit;
    var c := Ctz(word);
    assert Bit(word, c);
    if c >= 64 {
      NoHighBits(all, 64, c);
    }
    forall k: nat | b <= k < c ensures !Bit(all, k) {
      CtzIsLowest(word, k);
    }
    var rest := And(word, word - 1);
    forall k: nat ensures Bit(rest, k) <==> Bit(all, k) && k >= c + 1 {
      ClearLowest(word, k);
      if k < c {
        CtzIsLowest(word, k);
      }
    }
    assert BitsFrom(all, rest, c + 1);
  }

  lemma CollectBit(w: nat, pages: seq<Page>, v: seq<int>, i: nat, j: nat, word: nat, b: nat)
    requires Shaped(w, pages) && i < |pages| && pages[i].Page? && j < w && word > 0
    requires Collected(w, pages, v, IdAt(w, i, j, 0) + b) && BitsFrom(WordAt(w, pages, i, j), word, b)
    ensures var base, c := IdAt(w, i, j, 0), Ctz(word);
            && b <= c < 64
            && Collected(w, pages, v + [base + c], base + (c + 1))
            && BitsFrom(WordAt(w, pages, i, j), And(word, word - 1), c + 1)
  {
    hide Has, IdAt, Bit, Collected, And, Pow2, Shaped, BitsFrom, WordAt, Ctz;
    var base, c, all := IdAt(w, i, j, 0), Ctz(word), WordAt(w, pages, i, j);
    WordBound(w, pages, i, j);
    NextBit(all, word, b);
    IdInWord(w, pages, i, j, c);
    forall id: nat | base + b <= id < base + c ensures !Has(w, pages, id) {
      IdInWord(w, pages, i, j, id - base);
    }
    CollectOne(w, pages, v, base + b, base + c);
  }

  lemma WordBound(w: nat, pages: seq<Page>, i: nat, j: nat)
    requires Shaped(w, pages) && i < |pages| && pages[i].Page? && j < w
    ensures WordAt(w, pages, i, j) < Pow2(64)
  {
    assert ShapedPage(w, pages[i].words);
  }

  lemma CollectRest(w: nat, pages: seq<Page>, v: seq<int>, i: nat, j: nat, b: nat)
    requires Shaped(w, pages) && i < |pages| && pages[i].Page? && j < w && b <= 64
    requires Collected(w, pages, v, IdAt(w, i, j, 0) + b) && BitsFrom(WordAt(w, pages, i, j), 0, b)
    ensures Collected(w, pages, v, IdAt(w, i, j, 64))
  {
    var base := IdAt(w, i, j, 0);
    assert IdAt(w, i, j, 64) == base + 64;
    hide Has, IdAt, Bit, Collected, WordAt, Shaped;
    forall id: nat | base + b <= id < base + 64 ensures !Has(w, pages, id) {
      IdInWord(w, pages, i, j, id - base);
      BitOfZero(id - base);
    }
    CollectNone(w, pages, v, base + b, base + 64);
  }

  /** Beyond the last page there is nothing; the list has as many entries as there are members. */
  lemma AllCollected(w: nat, pages: seq<Page>, v: seq<int>)
    requires w > 0 && Collected(w, pages, v, Times(|pages|, Ids(w)))
    ensures forall id :: id in v <==> 0 <= id && id in Members(w, pages)
    ensures |v| == |Members(w, pages)|
  {
    forall id: int ensures id in v <==> 0 <= id && id in Members(w, pages) {
      if 0 <= id && Has(w, pages, id) {
        BelowEnd(w, id, |pages|);
      }
    }
    AscendingSize(v, Members(w, pages));
  }

  lemma {:induction false} AscendingSize(v: seq<int>, s: set<nat>)
    requires Ascending(v) && forall id :: id in v <==> 0 <= id && id in s
    ensures |v| == |s|
    decreases |v|
  {
    if v == [] {
      assert s == {} by {
        forall id: nat ensures id !in s {
          assert id !in v;
        }
      }
    } else {
      var last := v[|v| - 1];
      var front := v[..|v| - 1];
      assert last in v;
      assert v == front + [last];
      forall id: int ensures id in front <==> 0 <= id && id in s - {last} {
        assert id in v <==> id in front || id == last;
        if id in front {
          var i :| 0 <= i < |front| && front[i] == id;
          assert v[i] < v[|v| - 1];
        }
      }
      AscendingSize(front, s - {last});
    }
  }
}
