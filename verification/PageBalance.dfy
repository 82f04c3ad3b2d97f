/**
 Page references and page locks along every path through the labels of do_generic_file_read, as a
 state machine: the environment decides what is cached, up to date, truncated or failing.
 */
module PageBalance {

  type Page = nat

  datatype Event = Get(page: Page) | Release(page: Page) | Lock(page: Page) | Unlock(page: Page) | Use(page: Page)

  // ---------------------------------------------------------------- what a trace must keep

  function References(e: Event, p: Page): int {
    if e == Get(p) then 1 else if e == Release(p) then -1 else 0
  }

  function Locks(e: Event, p: Page): int {
    if e == Lock(p) then 1 else if e == Unlock(p) then -1 else 0
  }

  /** References to `p` taken and not given back in a trace. */
  function Held(t: seq<Event>, p: Page): int {
    if t == [] then 0 else Held(t[..|t| - 1], p) + References(t[|t| - 1], p)
  }

  function Locked(t: seq<Event>, p: Page): int {
    if t == [] then 0 else Locked(t[..|t| - 1], p) + Locks(t[|t| - 1], p)
  }

  /** What may follow `t`: a page is used, locked, unlocked and released only while it is held, no
      lock is taken twice, only a held lock is given back, and no locked page is released. */
  predicate Allowed(t: seq<Event>, e: Event) {
    match e
    case Get(_) => true
    case Use(p) => Held(t, p) > 0
    case Lock(p) => Held(t, p) > 0 && Locked(t, p) == 0
    case Unlock(p) => Held(t, p) > 0 && Locked(t, p) == 1
    case Release(p) => Held(t, p) > 0 && Locked(t, p) == 0
  }

  predicate Proper(t: seq<Event>) {
    forall i :: 0 <= i < |t| ==> Allowed(t[..i], t[i])
  }

  // ---------------------------------------------------------------- the labels

  datatype Pc =
    | FindPage | FindAgain | HavePage | PageOk
    | NotUpToDate | NotUpToDateLocked | ReadPage | AfterRead | Relocked
    | ReadError | NoCachedPage | Out

  datatype Code = Success | TruncatedPage | Exists | Failure

  /** One decision of the environment; a step looks at the parts its label asks about. */
  datatype Choice = Choice(
    found: bool, page: Page, upToDate: bool, partialCheck: bool, tryLock: bool, partiallyUpToDate: bool,
    inFile: bool, more: bool, killed: bool, hasMapping: bool, code: Code)

  datatype State = State(pc: Pc, page: Page, trace: seq<Event>) {

    function Do(e: Event): State { this.(trace := trace + [e]) }

    function Goto(l: Pc): State { this.(pc := l) }

    function Obtain(p: Page): State { this.(page := p, trace := trace + [Get(p)]) }
  }

  function Step(s: State, c: Choice): State {
    var p := s.page;
    match s.pc
    case FindPage => if c.found then s.Obtain(c.page).Goto(HavePage) else s.Goto(FindAgain)
    case FindAgain => if c.found then s.Obtain(c.page).Goto(HavePage) else s.Goto(NoCachedPage)
    case HavePage =>
      var u := s.Do(Use(p));
      if c.upToDate then u.Goto(PageOk)
      else if !c.partialCheck || !c.tryLock then u.Goto(NotUpToDate)
      else if !c.partiallyUpToDate then u.Do(Lock(p)).Do(Use(p)).Goto(NotUpToDateLocked)
      else u.Do(Lock(p)).Do(Use(p)).Do(Unlock(p)).Goto(PageOk)
    case PageOk =>
      if !c.inFile then s.Do(Release(p)).Goto(Out)
      else s.Do(Use(p)).Do(Release(p)).Goto(if c.more then FindPage else Out)
    case NotUpToDate => if c.killed then s.Goto(ReadError) else s.Do(Lock(p)).Goto(NotUpToDateLocked)
    case NotUpToDateLocked =>
      var u := s.Do(Use(p));
      if !c.hasMapping then u.Do(Unlock(p)).Do(Release(p)).Goto(FindPage)
      else if c.upToDate then u.Do(Unlock(p)).Goto(PageOk)
      else u.Goto(ReadPage)
    case ReadPage =>
      // readpage unlocks the page, also when it fails
      var u := s.Do(Use(p)).Do(Unlock(p));
      if c.code.Success? then u.Goto(AfterRead)
      else if c.code.TruncatedPage? then u.Do(Release(p)).Goto(FindPage)
      else u.Goto(ReadError)
    case AfterRead =>
      var u := s.Do(Use(p));
      if c.upToDate then u.Goto(PageOk)
      else if c.killed then u.Goto(ReadError)
      else u.Do(Lock(p)).Goto(Relocked)
    case Relocked =>
      var u := s.Do(Use(p)).Do(Unlock(p));
      if c.upToDate then u.Goto(PageOk)
      else if !c.hasMapping then u.Do(Release(p)).Goto(FindPage)
      else u.Goto(ReadError)
    case ReadError => s.Do(Release(p)).Goto(Out)
    case NoCachedPage =>
      if !c.found then s.Goto(Out)
      else
        var u := s.Obtain(c.page);
        if c.code.Success? then u.Do(Lock(c.page)).Goto(ReadPage)
        else u.Do(Release(c.page)).Goto(if c.code.Exists? then FindPage else Out)
    case Out => s
  }

  /** Every run from the head of the loop, for every behaviour of the environment. */
  function Run(p: Page, env: seq<Choice>): State {
    if env == [] then State(FindPage, p, []) else Step(Run(p, env[..|env| - 1]), env[|env| - 1])
  }

  // ---------------------------------------------------------------- the balance

  predicate HasPage(pc: Pc) { !(pc in {FindPage, FindAgain, NoCachedPage, Out}) }

  predicate HasLock(pc: Pc) { pc in {NotUpToDateLocked, ReadPage, Relocked} }

  /** A proper trace after which page `p` alone is held, `refs` times, and locked `locks` times. */
  ghost predicate Holds(t: seq<Event>, p: Page, refs: int, locks: int) {
    && Proper(t)
    && (forall q :: Held(t, q) == if q == p then refs else 0)
    && (forall q :: Locked(t, q) == if q == p then locks else 0)
  }

  ghost predicate Balanced(s: State) {
    Holds(s.trace, s.page, if HasPage(s.pc) then 1 else 0, if HasLock(s.pc) then 1 else 0)
  }

  lemma Append(t: seq<Event>, p: Page, refs: int, locks: int, e: Event)
    requires Holds(t, p, refs, locks) && e.page == p && Allowed(t, e)
    ensures Holds(t + [e], p, refs + References(e, p), locks + Locks(e, p))
  {
    var u := t + [e];
    assert u[..|t|] == t;
    forall i | 0 <= i < |u| ensures Allowed(u[..i], u[i]) {
      if i < |t| { assert u[..i] == t[..i]; }
    }
    forall q ensures Held(u, q) == Held(t, q) + References(e, q) && Locked(u, q) == Locked(t, q) + Locks(e, q) {}
  }

  lemma Used(t: seq<Event>, p: Page, locks: int)
    requires Holds(t, p, 1, locks)
    ensures Holds(t + [Use(p)], p, 1, locks)
  {
    Append(t, p, 1, locks, Use(p));
  }

  lemma Obtained(t: seq<Event>, q: Page, p: Page)
    requires Holds(t, q, 0, 0)
    ensures Holds(t, p, 0, 0) && Holds(t + [Get(p)], p, 1, 0)
  {
    Append(t, p, 0, 0, Get(p));
  }

  lemma Released(t: seq<Event>, p: Page)
    requires Holds(t, p, 1, 0)
    ensures Holds(t + [Release(p)], p, 0, 0)
  {
    Append(t, p, 1, 0, Release(p));
  }

  lemma TookLock(t: seq<Event>, p: Page)
    requires Holds(t, p, 1, 0)
    ensures Holds(t + [Lock(p)], p, 1, 1)
  {
    Append(t, p, 1, 0, Lock(p));
  }

  lemma GaveLock(t: seq<Event>, p: Page)
    requires Holds(t, p, 1, 1)
    ensures Holds(t + [Unlock(p)], p, 1, 0)
  {
    Append(t, p, 1, 1, Unlock(p));
  }

  lemma StepBalanced(s: State, c: Choice)
    requires Balanced(s)
    ensures Balanced(Step(s, c))
  {
    hide Holds;
    var t, p := s.trace, s.page;
    var u := t + [Use(p)];
    match s.pc
    case FindPage => Obtained(t, p, c.page);
    case FindAgain => Obtained(t, p, c.page);
    case HavePage =>
      Used(t, p, 0);
      TookLock(u, p);
      Used(u + [Lock(p)], p, 1);
      GaveLock(u + [Lock(p)] + [Use(p)], p);
    case PageOk =>
      Released(t, p);
      Used(t, p, 0);
      Released(u, p);
    case NotUpToDate => TookLock(t, p);
    case NotUpToDateLocked =>
      Used(t, p, 1);
      GaveLock(u, p);
      Released(u + [Unlock(p)], p);
    case ReadPage =>
      Used(t, p, 1);
      GaveLock(u, p);
      Released(u + [Unlock(p)], p);
    case AfterRead =>
      Used(t, p, 0);
      TookLock(u, p);
    case Relocked =>
      Used(t, p, 1);
      GaveLock(u, p);
      Released(u + [Unlock(p)], p);
    case ReadError => Released(t, p);
    case NoCachedPage =>
      Obtained(t, p, c.page);
      TookLock(t + [Get(c.page)], c.page);
      Released(t + [Get(c.page)], c.page);
    case Out =>
  }

  lemma {:induction false} RunBalanced(p: Page, env: seq<Choice>)
    ensures Balanced(Run(p, env))
  {
    if env != [] {
      RunBalanced(p, env[..|env| - 1]);
      StepBalanced(Run(p, env[..|env| - 1]), env[|env| - 1]);
    }
  }

  /** In every run nothing is used, locked or released that is not held, at most one page is held,
      and when the loop is left every reference and every lock has been given back. */
  lemma EverythingReleased(p: Page, env: seq<Choice>, q: Page)
    ensures var s := Run(p, env);
            && Proper(s.trace) && 0 <= Held(s.trace, q) <= 1
            && (s.pc.Out? ==> Held(s.trace, q) == 0 && Locked(s.trace, q) == 0)
            && (Held(s.trace, q) > 0 ==> q == s.page)
  {
    RunBalanced(p, env);
  }

  // ---------------------------------------------------------------- the usual ways through the loop

  function Follow(s: State, env: seq<Choice>): State
    decreases |env|
  {
    if env == [] then s else Follow(Step(s, env[0]), env[1..])
  }

  lemma FollowOne(s: State, env: seq<Choice>)
    requires env != []
    ensures Follow(s, env) == Follow(Step(s, env[0]), env[1..])
  {
  }

  lemma FollowAll(s: State, env: seq<Choice>)
    requires |env| == 6
    ensures Follow(s, env) == Step(Step(Step(Step(Step(Step(s, env[0]), env[1]), env[2]), env[3]), env[4]), env[5])
  {
    var s1 := Step(s, env[0]);
    var s2 := Step(s1, env[1]);
    var s3 := Step(s2, env[2]);
    FollowOne(s, env);
    FollowOne(s1, env[1..]);
    FollowOne(s2, env[1..][1..]);
    FollowThree(s3, env[1..][1..][1..]);
  }

  lemma FollowThree(s: State, env: seq<Choice>)
    requires |env| == 3
    ensures Follow(s, env) == Step(Step(Step(s, env[0]), env[1]), env[2])
  {
    FollowOne(s, env);
    FollowOne(Step(s, env[0]), env[1..]);
    FollowOne(Step(Step(s, env[0]), env[1]), env[1..][1..]);
    assert env[1..][1..][1..] == [];
  }

  /** A cached page that is up to date is used and released, and the loop goes on if more is wanted;
      if the position is past the end of the file it ends without copying. */
  lemma CachedPage(s: State, env: seq<Choice>)
    requires s.pc.FindPage? && |env| == 3 && env[0].found && env[1].upToDate
    ensures var p, r := env[0].page, Follow(s, env);
            && r.pc == (if env[2].inFile && env[2].more then FindPage else Out)
            && r.trace == s.trace + if env[2].inFile then [Get(p), Use(p), Use(p), Release(p)] else [Get(p), Use(p), Release(p)]
  {
    FollowThree(s, env);
  }

  /** A page that is not cached is added locked, read, checked, used and released; if reading fails it
      is released and the loop ends. */
  lemma MissingPage(s: State, env: seq<Choice>)
    requires s.pc.FindPage? && |env| == 6 && !env[0].found && !env[1].found && env[2].found && env[2].code.Success?
    requires env[3].code.Success? || env[3].code.Failure?
    requires env[3].code.Success? ==> env[4].upToDate && env[5].inFile
    ensures var p, r := env[2].page, Follow(s, env);
            && r.pc == (if env[3].code.Success? && env[5].more then FindPage else Out)
            && r.trace == s.trace + if env[3].code.Success? then [Get(p), Lock(p), Use(p), Unlock(p), Use(p), Use(p), Release(p)]
                                    else [Get(p), Lock(p), Use(p), Unlock(p), Release(p)]
  {
    FollowAll(s, env);
  }

  /** A cached page that is not up to date is locked and read; if it was truncated meanwhile it is
      unlocked and released, and the search starts again. */
  lemma StalePage(s: State, env: seq<Choice>)
    requires s.pc.FindPage? && |env| == 6 && env[0].found && !env[1].upToDate && !env[1].partialCheck && !env[2].killed
    requires env[3].hasMapping && !env[3].upToDate && env[4].code.Success? && env[5].upToDate
    ensures var p, r := env[0].page, Follow(s, env);
            && r.pc == PageOk && r.page == p
            && r.trace == s.trace + [Get(p), Use(p), Lock(p), Use(p), Use(p), Unlock(p), Use(p)]
  {
    FollowAll(s, env);
  }

  /** If the lock is free at once, a page that is up to date where it matters is used as it is, and any
      other is read with the lock held; a page filled while waiting for the lock is used. */
  lemma PartlyUpToDate(s: State, c: Choice, d: Choice)
    requires s.pc.HavePage? && !c.upToDate && c.partialCheck && c.tryLock && d.hasMapping && d.upToDate
    ensures var p, r := s.page, Step(s, c);
            && r.page == p
            && (c.partiallyUpToDate ==> r.pc == PageOk && r.trace == s.trace + [Use(p), Lock(p), Use(p), Unlock(p)])
            && (!c.partiallyUpToDate ==>
                && r.pc == NotUpToDateLocked && r.trace == s.trace + [Use(p), Lock(p), Use(p)]
                && Step(r, d).pc == PageOk && Step(r, d).trace == r.trace + [Use(p), Unlock(p)])
  {
  }

  /** A process killed while it waits for a lock, or without memory for a page, leaves the loop with
      everything given back; a page found up to date under the second lock is used. */
  lemma GivesUp(s: State, c: Choice, d: Choice)
    ensures var p, r := s.page, Step(Step(s, c), d);
            && (s.pc.NotUpToDate? && c.killed ==> r.pc == Out && r.trace == s.trace + [Release(p)])
            && (s.pc.AfterRead? && !c.upToDate && c.killed ==> r.pc == Out && r.trace == s.trace + [Use(p), Release(p)])
            && (s.pc.NoCachedPage? && !c.found ==> r.pc == Out && r.trace == s.trace)
            && (s.pc.Relocked? && c.upToDate ==> Step(s, c).pc == PageOk && Step(s, c).trace == s.trace + [Use(p), Unlock(p)])
  {
  }

  /** A page that somebody else added first is released, and the search starts again; any other failure
      to add it ends the loop. */
  lemma AddedByOthers(s: State, env: seq<Choice>)
    requires s.pc.FindPage? && |env| == 3 && !env[0].found && !env[1].found && env[2].found && !env[2].code.Success?
    ensures var p, r := env[2].page, Follow(s, env);
            r.pc == (if env[2].code.Exists? then FindPage else Out) && r.trace == s.trace + [Get(p), Release(p)]
  {
    FollowThree(s, env);
  }

  /** A page truncated while it was read is released, and the search starts again. */
  lemma TruncatedWhileRead(s: State, env: seq<Choice>)
    requires s.pc.NoCachedPage? && |env| == 3 && env[0].found && env[0].code.Success? && env[1].code.TruncatedPage? && !env[2].found
    ensures var p, r := env[0].page, Follow(s, env);
            r.pc == FindAgain && r.trace == s.trace + [Get(p), Lock(p), Use(p), Unlock(p), Release(p)]
  {
    FollowThree(s, env);
  }

  lemma TruncatedMeanwhile(s: State, env: seq<Choice>)
    requires s.pc.HavePage? && |env| == 3 && !env[0].upToDate && !env[0].tryLock && !env[1].killed && !env[2].hasMapping
    ensures var p, r := s.page, Follow(s, env);
            r.pc == FindPage && r.trace == s.trace + [Use(p), Lock(p), Use(p), Unlock(p), Release(p)]
  {
    FollowThree(s, env);
  }

  /** A read that left the page not up to date is locked again to see why: truncated, or in error. */
  lemma ReadAgain(s: State, env: seq<Choice>)
    requires s.pc.AfterRead? && |env| == 3 && !env[0].upToDate && !env[0].killed && !env[1].upToDate
    ensures var p, r := s.page, Follow(s, env);
            env[1].hasMapping ==> r.pc == Out && r.trace == s.trace + [Use(p), Lock(p), Use(p), Unlock(p), Release(p)]
    ensures !env[1].hasMapping ==> Step(Step(s, env[0]), env[1]).pc == FindPage
  {
    FollowThree(s, env);
  }
}
