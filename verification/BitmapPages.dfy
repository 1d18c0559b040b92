/** The pages of the thread filter: bit `id % 64` of word `id % capacity / 64` of page
    `id / capacity` stands for thread `id`. The pages stand for a set of thread ids. */
module BitmapPages {
  import opened Bits

  datatype Page = NoPage | Page(words: seq<nat>)

  /** BITMAP_CAPACITY: ids per page, for pages of `w` words. */
  function Ids(w: nat): nat { 64 * w }

  function PageOf(w: nat, id: nat): nat
    requires w > 0
  {
    Quot(id, Ids(w))
  }

  function WordOf(w: nat, id: nat): (j: nat)
    requires w > 0
    ensures j < w
  {
    var r := id % Ids(w);
    assert 0 <= r < 64 * w;
    r / 64
  }

  function BitOf(id: nat): (k: nat)
    ensures k < 64
  {
    id % 64
  }

  function IdAt(w: nat, i: nat, j: nat, k: nat): nat {
    Times(i, Ids(w)) + j * 64 + k
  }

  /** Every id has its own place, and every place its id. */
  lemma PlaceOfId(w: nat, i: nat, j: nat, k: nat)
    requires w > 0 && j < w && k < 64
    ensures var id := IdAt(w, i, j, k); PageOf(w, id) == i && WordOf(w, id) == j && BitOf(id) == k
  {
    var id, r := IdAt(w, i, j, k), j * 64 + k;
    assert id == i * Ids(w) + r;
    RemainderUnique(id, Ids(w), i, r);
    assert id == (i * w + j) * 64 + k by {
      assert i * (64 * w) == (i * w) * 64;
    }
    RemainderUnique(id, 64, i * w + j, k);
  }

  lemma IdOfPlace(w: nat, id: nat)
    requires w > 0
    ensures IdAt(w, PageOf(w, id), WordOf(w, id), BitOf(id)) == id
  {
    var n := Ids(w);
    var i, r := id / n, id % n;
    DivMod(id, n);
    DivMod(r, 64);
    assert id == (i * w + r / 64) * 64 + r % 64 by {
      assert i * (64 * w) == (i * w) * 64;
    }
    RemainderUnique(id, 64, i * w + r / 64, r % 64);
  }

  ghost predicate Shaped(w: nat, pages: seq<Page>) {
    w > 0 && forall i :: 0 <= i < |pages| && pages[i].Page? ==> ShapedPage(w, pages[i].words)
  }

  ghost predicate ShapedPage(w: nat, words: seq<nat>) {
    |words| == w && forall j :: 0 <= j < w ==> words[j] < Pow2(64)
  }

  predicate InPlace(w: nat, pages: seq<Page>, i: nat, j: nat, k: nat) {
    i < |pages| && pages[i].Page? && j < |pages[i].words| && Bit(pages[i].words[j], k)
  }

  predicate Has(w: nat, pages: seq<Page>, id: nat)
    requires w > 0
  {
    InPlace(w, pages, PageOf(w, id), WordOf(w, id), BitOf(id))
  }

  /** The set of thread ids. */
  ghost function Members(w: nat, pages: seq<Page>): (s: set<nat>)
    requires w > 0
    ensures forall id :: id in s <==> Has(w, pages, id)
  {
    assert forall id: nat :: Has(w, pages, id) ==> id < Times(|pages|, Ids(w)) by {
      forall id: nat | Has(w, pages, id) ensures id < Times(|pages|, Ids(w)) {
        BelowEnd(w, id, |pages|);
      }
    }
    set id: nat | id < Times(|pages|, Ids(w)) && Has(w, pages, id)
  }

  lemma BelowEnd(w: nat, id: nat, n: nat)
    requires w > 0 && PageOf(w, id) < n
    ensures id < Times(n, Ids(w))
  {
    var c := Ids(w);
    DivMod(id, c);
    MulAtLeast(n - id / c, c);
    assert n * c == (n - id / c) * c + (id / c) * c;
  }

  // ---------------------------------------------------------------------------------------
  // Updates
  // ---------------------------------------------------------------------------------------

  function WithWord(pages: seq<Page>, i: nat, j: nat, v: nat): seq<Page>
    requires i < |pages| && pages[i].Page? && j < |pages[i].words|
  {
    pages[i := Page(pages[i].words[j := v])]
  }

  /** word |= 1 << k */
  function SetBit(w: nat, pages: seq<Page>, id: nat): seq<Page>
    requires Shaped(w, pages) && PageOf(w, id) < |pages| && pages[PageOf(w, id)].Page?
  {
    var i, j := PageOf(w, id), WordOf(w, id);
    WithWord(pages, i, j, Or(pages[i].words[j], Pow2(BitOf(id))))
  }

  /** word &= ~(1 << k), in 64 bits */
  function ClearBit(w: nat, pages: seq<Page>, id: nat): seq<Page>
    requires Shaped(w, pages) && PageOf(w, id) < |pages| && pages[PageOf(w, id)].Page?
  {
    var i, j := PageOf(w, id), WordOf(w, id);
    BitInWord(BitOf(id));
    WithWord(pages, i, j, And(pages[i].words[j], Complement(Pow2(BitOf(id)), 64)))
  }

  lemma BitInWord(k: nat)
    requires k < 64
    ensures Pow2(k) < Pow2(64)
  {
    Pow2Monotone(k, 63);
    assert Pow2(64) == 2 * Pow2(63);
  }

  function ZeroWords(w: nat): seq<nat> {
    seq(w, i => 0)
  }

  /** Replacing one word changes membership only at that word. */
  lemma WordChange(w: nat, pages: seq<Page>, i: nat, j: nat, v: nat, id: nat)
    requires Shaped(w, pages) && i < |pages| && pages[i].Page? && j < w && v < Pow2(64)
    ensures Shaped(w, WithWord(pages, i, j, v))
    ensures Has(w, WithWord(pages, i, j, v), id)
            <==> if PageOf(w, id) == i && WordOf(w, id) == j then Bit(v, BitOf(id)) else Has(w, pages, id)
  {
    var words := pages[i].words;
    assert ShapedPage(w, words);
    assert ShapedPage(w, words[j := v]);
  }

  lemma SetBitMember(w: nat, pages: seq<Page>, id: nat, other: nat)
    requires Shaped(w, pages) && PageOf(w, id) < |pages| && pages[PageOf(w, id)].Page?
    ensures Shaped(w, SetBit(w, pages, id))
    ensures Has(w, SetBit(w, pages, id), other) <==> Has(w, pages, other) || other == id
  {
    var i, j, k := PageOf(w, id), WordOf(w, id), BitOf(id);
    assert ShapedPage(w, pages[i].words);
    var v := pages[i].words[j];
    BitInWord(k);
    OrBelow(v, Pow2(k), 64);
    hide Pow2, Or, Bit, PageOf, WordOf, BitOf, IdAt;
    WordChange(w, pages, i, j, Or(v, Pow2(k)), other);
    BitOfOr(v, Pow2(k), BitOf(other));
    BitOfPow2(k, BitOf(other));
    IdOfPlace(w, id);
    IdOfPlace(w, other);
  }

  lemma ClearBitMember(w: nat, pages: seq<Page>, id: nat, other: nat)
    requires Shaped(w, pages) && PageOf(w, id) < |pages| && pages[PageOf(w, id)].Page?
    ensures Shaped(w, ClearBit(w, pages, id))
    ensures Has(w, ClearBit(w, pages, id), other) <==> Has(w, pages, other) && other != id
  {
    var i, j, k := PageOf(w, id), WordOf(w, id), BitOf(id);
    assert ShapedPage(w, pages[i].words);
    var v := pages[i].words[j];
    BitInWord(k);
    var mask := Complement(Pow2(k), 64);
    AndAtMost(v, mask);
    hide Pow2, And, Bit, PageOf, WordOf, BitOf, IdAt, Complement;
    WordChange(w, pages, i, j, And(v, mask), other);
    BitOfAnd(v, mask, BitOf(other));
    BitOfComplement(Pow2(k), 64, BitOf(other));
    BitOfPow2(k, BitOf(other));
    IdOfPlace(w, id);
    IdOfPlace(w, other);
  }

  /** Pages stay once they are there. */
  ghost predicate PagesStay(pages: seq<Page>, pages': seq<Page>) {
    |pages'| == |pages| && forall i :: 0 <= i < |pages| && pages[i].Page? ==> pages'[i].Page?
  }

  /** Setting and clearing a bit is adding and removing an id. */
  lemma BitsAreMembers(w: nat, pages: seq<Page>, id: nat)
    requires Shaped(w, pages) && PageOf(w, id) < |pages| && pages[PageOf(w, id)].Page?
    ensures Shaped(w, SetBit(w, pages, id)) && Members(w, SetBit(w, pages, id)) == Members(w, pages) + {id}
    ensures Shaped(w, ClearBit(w, pages, id)) && Members(w, ClearBit(w, pages, id)) == Members(w, pages) - {id}
    ensures PagesStay(pages, SetBit(w, pages, id)) && PagesStay(pages, ClearBit(w, pages, id))
  {
    SetBitMember(w, pages, id, id);
    ClearBitMember(w, pages, id, id);
    hide SetBit, ClearBit, Has, Shaped;
    forall other: nat
      ensures Has(w, SetBit(w, pages, id), other) <==> Has(w, pages, other) || other == id
      ensures Has(w, ClearBit(w, pages, id), other) <==> Has(w, pages, other) && other != id
    {
      SetBitMember(w, pages, id, other);
      ClearBitMember(w, pages, id, other);
    }
  }

  /** What this does to their number. */
  lemma BitsCount(w: nat, pages: seq<Page>, id: nat)
    requires Shaped(w, pages) && PageOf(w, id) < |pages| && pages[PageOf(w, id)].Page?
    ensures Shaped(w, SetBit(w, pages, id)) && Shaped(w, ClearBit(w, pages, id))
    ensures |Members(w, SetBit(w, pages, id))| == |Members(w, pages)| + (if Has(w, pages, id) then 0 else 1)
    ensures |Members(w, ClearBit(w, pages, id))| == |Members(w, pages)| - (if Has(w, pages, id) then 1 else 0)
  {
    hide Shaped, PageOf, SetBit, ClearBit, Has;
    BitsAreMembers(w, pages, id);
    CountOf(Members(w, pages), id);
  }

  lemma CountOf(s: set<nat>, id: nat)
    ensures |s + {id}| == |s| + (if id in s then 0 else 1)
    ensures |s - {id}| == |s| - (if id in s then 1 else 0)
  {
    if id in s {
      assert s + {id} == s;
    } else {
      assert s - {id} == s;
    }
  }

  /** Putting an empty page in place changes no membership. */
  lemma EmptyPageAddsNothing(w: nat, pages: seq<Page>, i: nat)
    requires Shaped(w, pages) && i < |pages| && pages[i].NoPage?
    ensures Shaped(w, pages[i := Page(ZeroWords(w))])
    ensures Members(w, pages[i := Page(ZeroWords(w))]) == Members(w, pages)
    ensures PagesStay(pages, pages[i := Page(ZeroWords(w))])
  {
    var pages' := pages[i := Page(ZeroWords(w))];
    assert ShapedPage(w, ZeroWords(w));
    forall id: nat ensures Has(w, pages', id) <==> Has(w, pages, id) {
      BitOfZero(BitOf(id));
    }
  }

  lemma ZeroesAreEmpty(w: nat, pages: seq<Page>)
    requires w > 0 && forall i :: 0 <= i < |pages| ==> pages[i].NoPage? || pages[i].words == ZeroWords(w)
    ensures Shaped(w, pages) && Members(w, pages) == {}
  {
    assert ShapedPage(w, ZeroWords(w));
    forall id: nat ensures !Has(w, pages, id) {
      BitOfZero(BitOf(id));
    }
  }
}
