/** Concurrent updates of the thread filter of threadFilter.cpp: any number of threads add and
    remove ids, one atomic instruction at a time, while another thread may be clearing. Clearing looks
    at one page after the other, stores 0 into one word after the other, and then into the size. */
module FilterRace {
  import opened Sums
  import opened Bits
  import opened BitmapPages

  datatype Pc =
    | Idle
    | AddLoad(id: nat)      // load the page of the id
    | AddPage(id: nat)      // no page: compare-and-swap a zeroed one into place
    | AddOr(id: nat)        // fetch-and-or the bit
    | AddCount              // the bit was clear: increment the size
    | RemoveLoad(id: nat)
    | RemoveAnd(id: nat)    // fetch-and-and the complement of the bit
    | RemoveCount           // the bit was set: decrement the size

  /** Where the thread that clears is. */
  datatype Clearer =
    | NotClearing
    | AtPage(i: nat)            // is there a page?
    | AtWord(i: nat, j: nat)    // store 0 into the word
    | AtSize                    // store 0 into the size

  datatype State = State(pages: seq<Page>, size: int, threads: seq<Pc>, clear: Clearer)

  /** `w` words per page; ids from `max` on have no page as far as lookups are concerned. */
  datatype Config = Config(w: nat, max: nat)

  ghost predicate Init(cfg: Config, s: State) {
    && cfg.w > 0 && s.size == 0 && s.clear.NotClearing?
    && (forall i :: 0 <= i < |s.pages| ==> s.pages[i].NoPage? || s.pages[i].words == ZeroWords(cfg.w))
    && forall t :: 0 <= t < |s.threads| ==> s.threads[t].Idle?
  }

  predicate Paged(cfg: Config, pages: seq<Page>, id: nat)
    requires cfg.w > 0
  {
    PageOf(cfg.w, id) < |pages| && pages[PageOf(cfg.w, id)].Page?
  }

  ghost predicate PageStep(cfg: Config, pages: seq<Page>, size: int, pc: Pc, pages': seq<Page>, size': int, pc': Pc) {
    && Shaped(cfg.w, pages)
    && match pc
       case Idle =>
         && pages' == pages && size' == size
         && ((pc'.AddLoad? && PageOf(cfg.w, pc'.id) < |pages|) || pc'.RemoveLoad?)
       case AddLoad(id) =>
         && pages' == pages && size' == size
         && pc' == if id < cfg.max && Paged(cfg, pages, id) then AddOr(id) else AddPage(id)
       case AddPage(id) =>
         && PageOf(cfg.w, id) < |pages| && size' == size && pc' == AddOr(id)
         && pages' == if pages[PageOf(cfg.w, id)].NoPage? then pages[PageOf(cfg.w, id) := Page(ZeroWords(cfg.w))]
                      else pages
       case AddOr(id) =>
         && Paged(cfg, pages, id) && pages' == SetBit(cfg.w, pages, id) && size' == size
         && pc' == if Has(cfg.w, pages, id) then Idle else AddCount
       case AddCount => pages' == pages && size' == size + 1 && pc' == Idle
       case RemoveLoad(id) =>
         && pages' == pages && size' == size
         && pc' == if id < cfg.max && Paged(cfg, pages, id) then RemoveAnd(id) else Idle
       case RemoveAnd(id) =>
         && Paged(cfg, pages, id) && pages' == ClearBit(cfg.w, pages, id) && size' == size
         && pc' == if Has(cfg.w, pages, id) then RemoveCount else Idle
       case RemoveCount => pages' == pages && size' == size - 1 && pc' == Idle
  }

  ghost predicate Step(cfg: Config, s: State, t: nat, s': State) {
    && t < |s.threads| == |s'.threads| && s'.threads == s.threads[t := s'.threads[t]] && s'.clear == s.clear
    && PageStep(cfg, s.pages, s.size, s.threads[t], s'.pages, s'.size, s'.threads[t])
  }

  /** An instruction of clear. */
  ghost predicate ClearStep(cfg: Config, s: State, s': State) {
    && s'.threads == s.threads
    && match s.clear
       case NotClearing => s'.pages == s.pages && s'.size == s.size && s'.clear == AtPage(0)
       case AtPage(i) =>
         && s'.pages == s.pages && s'.size == s.size
         && s'.clear == (if i >= |s.pages| then AtSize
                         else if s.pages[i].NoPage? then AtPage(i + 1)
                         else AtWord(i, 0))
       case AtWord(i, j) =>
         && i < |s.pages| && s.pages[i].Page? && j < |s.pages[i].words|
         && s'.pages == WithWord(s.pages, i, j, 0) && s'.size == s.size
         && s'.clear == if j + 1 < cfg.w then AtWord(i, j + 1) else AtPage(i + 1)
       case AtSize => s'.pages == s.pages && s'.size == 0 && s'.clear == NotClearing
  }

  ghost predicate Next(cfg: Config, s: State, s': State) {
    ClearStep(cfg, s, s') || exists t :: Step(cfg, s, t, s')
  }

  ghost predicate IsRun(cfg: Config, run: seq<State>) {
    && |run| > 0 && Init(cfg, run[0])
    && forall i :: 0 <= i < |run| - 1 ==> Next(cfg, run[i], run[i + 1])
  }

  /** What a thread still owes to the size. */
  function Owed(pc: Pc): int {
    if pc.AddCount? then 1 else if pc.RemoveCount? then -1 else 0
  }

  ghost predicate PcInv(cfg: Config, pages: seq<Page>, pc: Pc)
    requires cfg.w > 0
  {
    && ((pc.AddLoad? || pc.AddPage?) ==> PageOf(cfg.w, pc.id) < |pages|)
    && ((pc.AddOr? || pc.RemoveAnd?) ==> Paged(cfg, pages, pc.id))
  }

  ghost predicate PcsInv(cfg: Config, pages: seq<Page>, threads: seq<Pc>)
    requires cfg.w > 0
  {
    forall t :: 0 <= t < |threads| ==> PcInv(cfg, pages, threads[t])
  }

  /** What holds in every run, clearing or not. */
  ghost predicate Sound(cfg: Config, s: State) {
    && cfg.w > 0 && Shaped(cfg.w, s.pages) && PcsInv(cfg, s.pages, s.threads)
    && (s.clear.AtWord? ==> s.clear.i < |s.pages| && s.pages[s.clear.i].Page? && s.clear.j < cfg.w)
  }

  /** By how much the size, with what is owed to it, is too large. */
  ghost function Excess(cfg: Config, s: State): int
    requires cfg.w > 0
  {
    s.size + Total(Owed, s.threads) - |Members(cfg.w, s.pages)|
  }

  ghost predicate AllIdle(s: State) {
    forall t :: 0 <= t < |s.threads| ==> s.threads[t].Idle?
  }

  /** The set changes exactly at the fetch-and-or and fetch-and-and instructions, and by exactly
      the id concerned. */
  lemma PageStepEffect(cfg: Config, pages: seq<Page>, size: int, pc: Pc, pages': seq<Page>, size': int, pc': Pc)
    requires cfg.w > 0 && PcInv(cfg, pages, pc) && PageStep(cfg, pages, size, pc, pages', size', pc')
    ensures Shaped(cfg.w, pages') && PagesStay(pages, pages') && PcInv(cfg, pages', pc')
    ensures Members(cfg.w, pages') == if pc.AddOr? then Members(cfg.w, pages) + {pc.id}
                                      else if pc.RemoveAnd? then Members(cfg.w, pages) - {pc.id}
                                      else Members(cfg.w, pages)
    ensures size' + Owed(pc') - |Members(cfg.w, pages')| == size + Owed(pc) - |Members(cfg.w, pages)|
  {
    hide Members, PageOf, Pow2, Shaped, SetBit, ClearBit, Has;
    match pc {
      case AddPage(id) =>
        if pages[PageOf(cfg.w, id)].NoPage? {
          EmptyPageAddsNothing(cfg.w, pages, PageOf(cfg.w, id));
        }
      case AddOr(id) =>
        BitsAreMembers(cfg.w, pages, id);
        BitsCount(cfg.w, pages, id);
      case RemoveAnd(id) =>
        BitsAreMembers(cfg.w, pages, id);
        BitsCount(cfg.w, pages, id);
      case _ =>
    }
  }

  lemma StepKeepsExcess(cfg: Config, s: State, t: nat, s': State)
    requires Sound(cfg, s) && Step(cfg, s, t, s')
    ensures Sound(cfg, s') && Excess(cfg, s') == Excess(cfg, s)
  {
    PageStepEffect(cfg, s.pages, s.size, s.threads[t], s'.pages, s'.size, s'.threads[t]);
    TotalUpdate(Owed, s.threads, t, s'.threads[t]);
    hide Shaped, PageStep, Members, Owed;
    forall u | 0 <= u < |s'.threads| ensures PcInv(cfg, s'.pages, s'.threads[u]) {
      if u != t {
        assert PcInv(cfg, s.pages, s.threads[u]);
      }
    }
  }

  lemma ZeroWordKeeps(cfg: Config, s: State, s': State)
    requires Sound(cfg, s) && ClearStep(cfg, s, s') && s.clear.AtWord?
    ensures Sound(cfg, s')
  {
    assert ShapedPage(cfg.w, s.pages[s.clear.i].words);
    WordChange(cfg.w, s.pages, s.clear.i, s.clear.j, 0, 0);
    hide Shaped;
    forall t | 0 <= t < |s'.threads| ensures PcInv(cfg, s'.pages, s'.threads[t]) {
      assert PcInv(cfg, s.pages, s.threads[t]);
    }
  }

  lemma NextKeepsSound(cfg: Config, s: State, s': State)
    requires Sound(cfg, s) && Next(cfg, s, s')
    ensures Sound(cfg, s')
  {
    if ClearStep(cfg, s, s') {
      if s.clear.AtWord? {
        ZeroWordKeeps(cfg, s, s');
      } else if s'.clear.AtWord? {
        assert ShapedPage(cfg.w, s.pages[s'.clear.i].words);
      }
    } else {
      var t: nat :| Step(cfg, s, t, s');
      hide Sound, Step;
      StepKeepsExcess(cfg, s, t, s');
    }
  }

  lemma RunStep(cfg: Config, run: seq<State>, i: nat)
    requires IsRun(cfg, run) && i < |run| - 1
    ensures Next(cfg, run[i], run[i + 1])
  {
  }

  lemma {:induction false} RunSound(cfg: Config, run: seq<State>, i: nat)
    requires IsRun(cfg, run) && i < |run|
    ensures Sound(cfg, run[i])
  {
    if i == 0 {
      ZeroesAreEmpty(cfg.w, run[0].pages);
    } else {
      hide IsRun, Sound, Next;
      RunSound(cfg, run, i - 1);
      RunStep(cfg, run, i - 1);
      NextKeepsSound(cfg, run[i - 1], run[i]);
    }
  }

  // ---------------------------------------------------------------------------------------
  // Clearing while nothing else happens
  // ---------------------------------------------------------------------------------------

  /** The words before this one are 0. */
  ghost predicate Emptied(pages: seq<Page>, i: nat, j: nat) {
    forall p: nat, q: nat :: p < |pages| && pages[p].Page? && q < |pages[p].words| && (p < i || (p == i && q < j)) ==>
      WordAt(pages, p, q) == 0
  }

  function WordAt(pages: seq<Page>, p: nat, q: nat): nat
    requires p < |pages| && pages[p].Page? && q < |pages[p].words|
  {
    pages[p].words[q]
  }

  /** Outside of clearing the size, with what is owed, is right; inside, the part that was passed is
      empty. */
  ghost predicate Right(cfg: Config, s: State)
    requires cfg.w > 0
  {
    match s.clear
    case NotClearing => Excess(cfg, s) == 0
    case AtPage(i) => Emptied(s.pages, i, 0)
    case AtWord(i, j) => Emptied(s.pages, i, j)
    case AtSize => Emptied(s.pages, |s.pages|, 0)
  }

  lemma ClearStepKeepsRight(cfg: Config, s: State, s': State)
    requires Sound(cfg, s) && Right(cfg, s) && AllIdle(s) && ClearStep(cfg, s, s')
    ensures Right(cfg, s')
  {
    match s.clear {
      case NotClearing =>
      case AtPage(i) => hide Excess, Shaped, PcsInv;
      case AtWord(i, j) =>
        assert ShapedPage(cfg.w, s.pages[i].words);
        hide Excess, Shaped, PcsInv;
        ZeroNext(cfg.w, s.pages, i, j);
      case AtSize =>
        EmptiedIsEmpty(cfg.w, s.pages);
        TotalZero(Owed, s.threads);
    }
  }

  lemma ZeroNext(w: nat, pages: seq<Page>, i: nat, j: nat)
    requires i < |pages| && pages[i].Page? && j < |pages[i].words| == w && Emptied(pages, i, j)
    ensures Emptied(WithWord(pages, i, j, 0), i, j + 1)
    ensures j + 1 == w ==> Emptied(WithWord(pages, i, j, 0), i + 1, 0)
  {
    var pages' := WithWord(pages, i, j, 0);
    forall p: nat, q: nat | p < |pages'| && pages'[p].Page? && q < |pages'[p].words| && (p < i || (p == i && q < j + 1))
      ensures WordAt(pages', p, q) == 0
    {
      assert p < |pages| && pages[p].Page? && q < |pages[p].words|;
      assert (p, q) != (i, j) ==> WordAt(pages', p, q) == WordAt(pages, p, q);
    }
  }

  lemma EmptiedIsEmpty(w: nat, pages: seq<Page>)
    requires Shaped(w, pages) && Emptied(pages, |pages|, 0)
    ensures Members(w, pages) == {}
  {
    forall i | 0 <= i < |pages| ensures pages[i].NoPage? || pages[i].words == ZeroWords(w) {
      if pages[i].Page? {
        assert ShapedPage(w, pages[i].words);
        forall q: nat | q < w ensures pages[i].words[q] == 0 {
          assert WordAt(pages, i, q) == 0;
        }
      }
    }
    ZeroesAreEmpty(w, pages);
  }

  /** Whenever somebody clears up to state `i`, no update is under way. */
  ghost predicate QuietClears(run: seq<State>, i: nat) {
    forall k :: 0 <= k <= i && k < |run| && !run[k].clear.NotClearing? ==> AllIdle(run[k])
  }

  lemma {:induction false} QuietRight(cfg: Config, run: seq<State>, i: nat)
    requires IsRun(cfg, run) && i < |run| && QuietClears(run, i)
    ensures Sound(cfg, run[i]) && Right(cfg, run[i])
  {
    RunSound(cfg, run, i);
    if i == 0 {
      ZeroesAreEmpty(cfg.w, run[0].pages);
      TotalZero(Owed, run[0].threads);
    } else {
      hide IsRun, Sound, Right, Step, ClearStep, AllIdle;
      QuietRight(cfg, run, i - 1);
      RunStep(cfg, run, i - 1);
      QuietNext(cfg, run[i - 1], run[i]);
    }
  }

  lemma QuietNext(cfg: Config, s: State, s': State)
    requires Sound(cfg, s) && Right(cfg, s) && Next(cfg, s, s')
    requires (s.clear.NotClearing? || AllIdle(s)) && (s'.clear.NotClearing? || AllIdle(s'))
    ensures Sound(cfg, s') && Right(cfg, s')
  {
    NextKeepsSound(cfg, s, s');
    if ClearStep(cfg, s, s') {
      if s.clear.NotClearing? {
        hide Sound, Excess;
      } else {
        hide ClearStep, Sound, Right;
        ClearStepKeepsRight(cfg, s, s');
      }
    } else {
      var t: nat :| Step(cfg, s, t, s');
      StepKeepsExcess(cfg, s, t, s');
      hide Sound, Excess, Shaped;
    }
  }

  /** In every run in which clearing meets no update under way: when no update is under way, the size
      is the number of members. */
  lemma SizeIsCardinality(cfg: Config, run: seq<State>, i: nat)
    requires IsRun(cfg, run) && i < |run| && QuietClears(run, i)
    requires AllIdle(run[i]) && run[i].clear.NotClearing?
    ensures cfg.w > 0 && run[i].size == |Members(cfg.w, run[i].pages)|
  {
    QuietRight(cfg, run, i);
    TotalZero(Owed, run[i].threads);
  }

  // ---------------------------------------------------------------------------------------
  // Clearing in the middle of updates
  // ---------------------------------------------------------------------------------------

  /** Nobody clears from state `k` to state `i`. */
  ghost predicate NoClear(run: seq<State>, k: nat, i: nat) {
    forall j :: k <= j <= i && j < |run| ==> run[j].clear.NotClearing?
  }

  lemma {:induction false} ExcessKept(cfg: Config, run: seq<State>, k: nat, i: nat)
    requires IsRun(cfg, run) && k <= i < |run| && NoClear(run, k, i)
    ensures Sound(cfg, run[k]) && Sound(cfg, run[i]) && Excess(cfg, run[i]) == Excess(cfg, run[k])
    decreases i
  {
    RunSound(cfg, run, k);
    RunSound(cfg, run, i);
    hide IsRun, Sound, Excess, Next;
    if k < i {
      ExcessKept(cfg, run, k, i - 1);
      RunStep(cfg, run, i - 1);
      assert run[i - 1].clear.NotClearing? && run[i].clear.NotClearing?;
      UpdateKeepsExcess(cfg, run[i - 1], run[i]);
    }
  }

  lemma UpdateKeepsExcess(cfg: Config, s: State, s': State)
    requires Sound(cfg, s) && Next(cfg, s, s') && s.clear.NotClearing? && s'.clear.NotClearing?
    ensures Sound(cfg, s') && Excess(cfg, s') == Excess(cfg, s)
  {
    hide Sound, Excess, Step;
    assert !ClearStep(cfg, s, s');
    var t: nat :| Step(cfg, s, t, s');
    StepKeepsExcess(cfg, s, t, s');
  }

  /** Clearing with updates at any point under way, before, between and after its stores: when they are
      done, and until the next clear, the size is right if and only if, as clear stored it, the updates
      owed as much as there were members again. If not, it is wrong by the difference. */
  lemma ClearExact(cfg: Config, run: seq<State>, k: nat, i: nat)
    requires IsRun(cfg, run) && k < i < |run| && run[k].clear.AtSize? && NoClear(run, k + 1, i) && AllIdle(run[i])
    ensures cfg.w > 0
    ensures run[i].size - |Members(cfg.w, run[i].pages)|
         == Total(Owed, run[k].threads) - |Members(cfg.w, run[k].pages)|
    ensures run[i].size == |Members(cfg.w, run[i].pages)|
        <==> Total(Owed, run[k].threads) == |Members(cfg.w, run[k].pages)|
  {
    ExcessKept(cfg, run, k + 1, i);
    RunStep(cfg, run, k);
    assert run[k + 1].clear.NotClearing?;
    TotalZero(Owed, run[i].threads);
    hide IsRun, Sound, Members, PageStep;
  }

  // ---------------------------------------------------------------------------------------
  // A size that stays wrong
  // ---------------------------------------------------------------------------------------

  ghost predicate Reachable(cfg: Config, s: State) {
    exists run: seq<State> :: IsRun(cfg, run) && run[|run| - 1] == s
  }

  lemma Go(cfg: Config, s: State, s': State)
    requires Reachable(cfg, s) && Next(cfg, s, s')
    ensures Reachable(cfg, s')
  {
    hide Next, Init;
    var run: seq<State> :| IsRun(cfg, run) && run[|run| - 1] == s;
    var longer := run + [s'];
    forall i | 0 <= i < |longer| - 1 ensures Next(cfg, longer[i], longer[i + 1]) {
      if i < |run| - 1 {
        assert Next(cfg, run[i], run[i + 1]);
      }
    }
    assert IsRun(cfg, longer);
  }

  lemma ReachableSound(cfg: Config, s: State)
    requires Reachable(cfg, s)
    ensures Sound(cfg, s)
  {
    var run: seq<State> :| IsRun(cfg, run) && run[|run| - 1] == s;
    RunSound(cfg, run, |run| - 1);
  }

  /** An instruction of clear that can be taken. */
  lemma ClearsOn(cfg: Config, s: State) returns (s': State)
    requires Reachable(cfg, s) && cfg.w > 0 && (!s.clear.NotClearing? ==> Right(cfg, s))
    ensures Reachable(cfg, s') && ClearStep(cfg, s, s') && (!s'.clear.NotClearing? ==> Right(cfg, s'))
  {
    ReachableSound(cfg, s);
    match s.clear {
      case NotClearing => s' := s.(clear := AtPage(0));
      case AtPage(i) =>
        s' := s.(clear := if i >= |s.pages| then AtSize else if s.pages[i].NoPage? then AtPage(i + 1) else AtWord(i,
            0));
      case AtWord(i, j) =>
        assert ShapedPage(cfg.w, s.pages[i].words);
        ZeroNext(cfg.w, s.pages, i, j);
        s' := s.(pages := WithWord(s.pages, i, j, 0),
                 clear := if j + 1 < cfg.w then AtWord(i, j + 1) else AtPage(i + 1));
      case AtSize => s' := s.(size := 0, clear := NotClearing);
    }
    hide Reachable, Sound, Excess;
    Go(cfg, s, s');
  }

  /** What clear has still to do. */
  function ToDo(cfg: Config, s: State): (nat, nat)
    requires cfg.w > 0
  {
    match s.clear
    case AtPage(i) => (if i <= |s.pages| then |s.pages| - i + 1 else 1, 0)
    case AtWord(i, j) => (if i <= |s.pages| then |s.pages| - i else 0, if j <= cfg.w then cfg.w - j else 0)
    case _ => (0, 0)
  }

  /** Clearing to the end while the others wait. */
  lemma {:induction false} ClearsToSize(cfg: Config, s: State) returns (s': State)
    requires Reachable(cfg, s) && cfg.w > 0 && !s.clear.NotClearing? && Right(cfg, s)
    ensures Reachable(cfg, s') && s'.clear.AtSize? && Right(cfg, s') && s'.threads == s.threads
    decreases ToDo(cfg, s).0, ToDo(cfg, s).1
  {
    if s.clear.AtSize? {
      s' := s;
    } else {
      ReachableSound(cfg, s);
      s' := ClearsOn(cfg, s);
      hide Reachable, Sound, Right;
      s' := ClearsToSize(cfg, s');
    }
  }

  /** One thread that has changed its bit but not yet counted it, a clear, and then the count: the size
      is off by one with nothing under way. */
  lemma LateCount(cfg: Config, s: State, t: nat) returns (s': State)
    requires Reachable(cfg, s) && cfg.w > 0 && s.clear.NotClearing? && t < |s.threads| && Owed(s.threads[t]) != 0
    requires forall u :: 0 <= u < |s.threads| && u != t ==> s.threads[u].Idle?
    ensures Reachable(cfg, s') && AllIdle(s') && s'.clear.NotClearing?
    ensures Members(cfg.w, s'.pages) == {} && s'.size == Owed(s.threads[t])
  {
    var s1 := ClearsOn(cfg, s);
    var s2 := ClearsToSize(cfg, s1);
    ReachableSound(cfg, s2);
    EmptiedIsEmpty(cfg.w, s2.pages);
    var s3 := ClearsOn(cfg, s2);
    s' := s3.(size := s3.size + Owed(s.threads[t]), threads := s3.threads[t := Idle]);
    hide Reachable, Members;
    assert Step(cfg, s3, t, s');
    Go(cfg, s3, s');
  }

  /** A thread is about to set the bit of id 0. */
  ghost predicate BeforeOr(cfg: Config, s: State)
    requires cfg.w > 0
  {
    && Reachable(cfg, s) && s.clear.NotClearing? && s.pages == [Page(ZeroWords(cfg.w))]
    && (s.threads == [AddOr(0)] || s.threads == [AddPage(0)])
  }

  lemma AddBegins(cfg: Config) returns (s: State)
    requires cfg.w > 0
    ensures BeforeOr(cfg, s)
  {
    var pages := [Page(ZeroWords(cfg.w))];
    s := State(pages, 0, [Idle], NotClearing);
    assert IsRun(cfg, [s]) && [s][0] == s;
    FirstPage(cfg, pages);
    assert Reachable(cfg, s);
    hide Reachable, IsRun, Shaped, Has, PageOf, ZeroWords;
    s := Moves(cfg, s, pages, AddLoad(0));
    s := Moves(cfg, s, pages, if 0 < cfg.max then AddOr(0) else AddPage(0));
  }

  /** A thread adds id 0 and is about to count it. */
  lemma CountPending(cfg: Config) returns (s: State)
    requires cfg.w > 0
    ensures Reachable(cfg, s) && s.clear.NotClearing? && s.threads == [AddCount]
  {
    s := AddBegins(cfg);
    FirstPage(cfg, s.pages);
    hide Reachable, Shaped, Has, SetBit, PageOf, ZeroWords;
    if s.threads == [AddPage(0)] {
      s := Moves(cfg, s, s.pages, AddOr(0));
    }
    s := Moves(cfg, s, SetBit(cfg.w, s.pages, 0), AddCount);
  }

  lemma FirstPage(cfg: Config, pages: seq<Page>)
    requires cfg.w > 0 && pages == [Page(ZeroWords(cfg.w))]
    ensures Shaped(cfg.w, pages) && PageOf(cfg.w, 0) == 0 && !Has(cfg.w, pages, 0)
  {
    ZeroesAreEmpty(cfg.w, pages);
    RemainderUnique(0, Ids(cfg.w), 0, 0);
  }

  lemma Moves(cfg: Config, s: State, pages: seq<Page>, pc: Pc) returns (s': State)
    requires Reachable(cfg, s) && |s.threads| == 1 && PageStep(cfg, s.pages, s.size, s.threads[0], pages, s.size, pc)
    ensures s' == s.(pages := pages, threads := [pc]) && Reachable(cfg, s')
  {
    s' := s.(pages := pages, threads := [pc]);
    assert s.threads[0 := pc] == [pc];
    hide Reachable, PageStep;
    assert Step(cfg, s, 0, s');
    Go(cfg, s, s');
  }

  /** For every page size and range there is a run after which no update and no clear is under way, the
      set is empty and the size is 1. */
  lemma SizeStaysWrong(cfg: Config) returns (s: State)
    requires cfg.w > 0
    ensures Reachable(cfg, s) && AllIdle(s) && s.clear.NotClearing?
    ensures Members(cfg.w, s.pages) == {} && s.size == 1
  {
    s := CountPending(cfg);
    s := LateCount(cfg, s, 0);
  }

  // ---------------------------------------------------------------------------------------
  // What add and remove do
  // ---------------------------------------------------------------------------------------

  /** Step `m`, of thread `t`, makes the id a member, or removes it. */
  ghost predicate Joins(cfg: Config, run: seq<State>, m: nat, t: nat, id: nat) {
    && cfg.w > 0 && m + 1 < |run| && Step(cfg, run[m], t, run[m + 1]) && run[m].threads[t] == AddOr(id)
    && Members(cfg.w, run[m + 1].pages) == Members(cfg.w, run[m].pages) + {id}
  }

  ghost predicate Leaves(cfg: Config, run: seq<State>, m: nat, t: nat, id: nat) {
    && cfg.w > 0 && m + 1 < |run| && Step(cfg, run[m], t, run[m + 1]) && run[m].threads[t] == RemoveAnd(id)
    && Members(cfg.w, run[m + 1].pages) == Members(cfg.w, run[m].pages) - {id}
  }

  ghost predicate JoinedNew(cfg: Config, run: seq<State>, j: nat, k: nat, t: nat, id: nat) {
    exists m: nat :: j <= m < k && Joins(cfg, run, m, t, id) && id !in Members(cfg.w, run[m].pages)
  }

  ghost predicate LeftMember(cfg: Config, run: seq<State>, j: nat, k: nat, t: nat, id: nat) {
    exists m: nat :: j <= m < k && Leaves(cfg, run, m, t, id) && id in Members(cfg.w, run[m].pages)
  }

  /** What thread `t` has done since it began to add or remove the id in state `j`. */
  ghost predicate Story(cfg: Config, run: seq<State>, j: nat, k: nat, t: nat, id: nat, adds: bool)
    requires k < |run| && t < |run[k].threads|
  {
    match run[k].threads[t]
    case AddLoad(i) => adds && i == id
    case AddPage(i) => adds && i == id
    case AddOr(i) => adds && i == id
    case AddCount => adds && JoinedNew(cfg, run, j, k, t, id)
    case RemoveLoad(i) => !adds && i == id
    case RemoveAnd(i) => !adds && i == id
    case RemoveCount => !adds && LeftMember(cfg, run, j, k, t, id)
    case Idle => false
  }

  /** Thread `t` is inside one call from state `j` to state `k`. */
  ghost predicate Updating(run: seq<State>, j: nat, k: nat, t: nat, id: nat, adds: bool) {
    && j <= k < |run| && (forall m :: j <= m <= k ==> t < |run[m].threads| && !run[m].threads[t].Idle?)
    && run[j].threads[t] == if adds then AddLoad(id) else RemoveLoad(id)
  }

  lemma Mover(cfg: Config, run: seq<State>, k: nat, t: nat) returns (moved: bool)
    requires IsRun(cfg, run) && k + 1 < |run| && t < |run[k].threads|
    ensures t < |run[k + 1].threads|
    ensures if moved then Step(cfg, run[k], t, run[k + 1]) else run[k + 1].threads[t] == run[k].threads[t]
  {
    RunStep(cfg, run, k);
    hide IsRun, PageStep;
    moved := Step(cfg, run[k], t, run[k + 1]);
    if !ClearStep(cfg, run[k], run[k + 1]) && !moved {
      var u: nat :| Step(cfg, run[k], u, run[k + 1]);
      assert u != t;
    }
  }

  lemma StoryLater(cfg: Config, run: seq<State>, j: nat, k: nat, t: nat, id: nat, adds: bool)
    requires j <= k && k + 1 < |run| && t < |run[k].threads| && t < |run[k + 1].threads|
    requires Story(cfg, run, j, k, t, id, adds) && run[k + 1].threads[t] == run[k].threads[t]
    ensures Story(cfg, run, j, k + 1, t, id, adds)
  {
    hide Joins, Leaves;
  }

  /** The thread's own step: the bit, and whether there is something to count. */
  lemma StoryStep(cfg: Config, run: seq<State>, j: nat, k: nat, t: nat, id: nat, adds: bool)
    requires j <= k && k + 1 < |run| && Sound(cfg, run[k]) && Step(cfg, run[k], t, run[k + 1])
    requires Story(cfg, run, j, k, t, id, adds)
    ensures !run[k + 1].threads[t].Idle? ==> Story(cfg, run, j, k + 1, t, id, adds)
    ensures run[k].threads[t].AddOr? ==> Joins(cfg, run, k, t, id)
    ensures run[k].threads[t].AddOr? ==>
              run[k + 1].threads[t] == if id in Members(cfg.w, run[k].pages) then Idle else AddCount
    ensures run[k].threads[t].RemoveAnd? ==> Leaves(cfg, run, k, t, id)
    ensures run[k].threads[t].RemoveAnd? ==>
              run[k + 1].threads[t] == if id in Members(cfg.w, run[k].pages) then RemoveCount else Idle
  {
    var s, s' := run[k], run[k + 1];
    assert PcInv(cfg, s.pages, s.threads[t]);
    PageStepEffect(cfg, s.pages, s.size, s.threads[t], s'.pages, s'.size, s'.threads[t]);
    assert s.threads[t].AddOr? ==> Joins(cfg, run, k, t, id);
    assert s.threads[t].RemoveAnd? ==> Leaves(cfg, run, k, t, id);
    hide Members, Has, Shaped, SetBit, ClearBit, PageOf, Joins, Leaves;
  }

  lemma StoryBegins(cfg: Config, run: seq<State>, j: nat, t: nat, id: nat, adds: bool)
    requires j < |run| && t < |run[j].threads| && run[j].threads[t] == if adds then AddLoad(id) else RemoveLoad(id)
    ensures Story(cfg, run, j, j, t, id, adds)
  {
  }

  lemma {:induction false} StoryHolds(cfg: Config, run: seq<State>, j: nat, k: nat, t: nat, id: nat, adds: bool)
    requires IsRun(cfg, run) && Updating(run, j, k, t, id, adds)
    ensures Sound(cfg, run[k]) && Story(cfg, run, j, k, t, id, adds)
    decreases k
  {
    hide IsRun, Sound, Step, Story;
    RunSound(cfg, run, k);
    if j == k {
      StoryBegins(cfg, run, j, t, id, adds);
    } else {
      StoryHolds(cfg, run, j, k - 1, t, id, adds);
      var moved := Mover(cfg, run, k - 1, t);
      if moved {
        StoryStep(cfg, run, j, k - 1, t, id, adds);
      } else {
        StoryLater(cfg, run, j, k - 1, t, id, adds);
      }
    }
  }

  /** Every add that returns has made the id a member at one of its steps, and has counted it exactly if it
      was not a member before that step. */
  lemma AddTakesEffect(cfg: Config, run: seq<State>, j: nat, k: nat, t: nat, id: nat) returns (m: nat)
    requires IsRun(cfg, run) && Updating(run, j, k, t, id, true) && k + 1 < |run|
    requires t < |run[k + 1].threads| && run[k + 1].threads[t].Idle?
    ensures j <= m <= k && Joins(cfg, run, m, t, id)
    ensures if id in Members(cfg.w, run[m].pages) then m == k
            else m < k && run[k].threads[t].AddCount? && run[k + 1].size == run[k].size + 1
  {
    StoryHolds(cfg, run, j, k, t, id, true);
    var moved := Mover(cfg, run, k, t);
    hide IsRun;
    StoryStep(cfg, run, j, k, t, id, true);
    hide Joins, Sound;
    if run[k].threads[t].AddCount? {
      m :| j <= m < k && Joins(cfg, run, m, t, id) && id !in Members(cfg.w, run[m].pages);
    } else {
      m := k;
    }
  }

  /** Every remove of an id in range that returns has either seen that its page does not exist, when it was
      no member, or has removed it at one of its steps; it counts that exactly if it was a member. */
  lemma RemoveTakesEffect(cfg: Config, run: seq<State>, j: nat, k: nat, t: nat, id: nat) returns (m: nat)
    requires IsRun(cfg, run) && Updating(run, j, k, t, id, false) && k + 1 < |run| && id < cfg.max
    requires t < |run[k + 1].threads| && run[k + 1].threads[t].Idle?
    ensures cfg.w > 0 && j <= m <= k
    ensures if run[k].threads[t].RemoveLoad? then m == k && id !in Members(cfg.w, run[k].pages)
            else
              && Leaves(cfg, run, m, t, id)
              && if id in Members(cfg.w, run[m].pages)
                 then m < k && run[k].threads[t].RemoveCount? && run[k + 1].size == run[k].size - 1
                 else m == k
  {
    StoryHolds(cfg, run, j, k, t, id, false);
    var moved := Mover(cfg, run, k, t);
    hide IsRun;
    StoryStep(cfg, run, j, k, t, id, false);
    hide Leaves, Sound;
    if run[k].threads[t].RemoveCount? {
      m :| j <= m < k && Leaves(cfg, run, m, t, id) && id in Members(cfg.w, run[m].pages);
    } else {
      m := k;
    }
  }
}
