/**
 The event handler list of libgwm/libgwm.c: handlers are pushed at the head of
 a doubly linked list, and a dispatch walks the list calling those of one
 window.  A callback may itself push handlers, dispatch events and destroy
 windows, this one's included, so an entry may be unlinked, and its memory
 given away, while dispatches further down the call stack stand on it.

 Memory is explicit here: `heap` holds the handler records that malloc has
 handed out and free has not taken back, and an address may be handed out
 again.  Reading a record is a lookup in `heap`, so every lookup below carries
 the proof that the record has not been freed.  The C call stack of
 gwmPostEventByWindowID is the sequence `frames`.
 */
module HandlerDispatch {
  import opened LinkedLists

  const EVENT_FOCUS_IN := 7
  const EVENT_FOCUS_OUT := 8

  datatype Status = Ok | Break | Cont | Default

  datatype Window = Window(id: nat, modalID: nat)

  /** `serial` numbers the pushes; the source has no such field, and no step depends on it. */
  datatype Handler = Handler(win: Option<Ptr>, callback: nat, refcount: int, serial: nat)

  /** GWMHandlerInfo: a list node holding a handler. */
  type HandlerInfo = Node<Handler>

  /** What a call was made for: the window of the entry, and the event as it was then. */
  datatype Called = Called(id: nat, modalID: nat, evType: int)

  /**
   One activation of gwmPostEventByWindowID, at the head of its loop or inside
   a callback.  `born`, `calls` and `reasons` are its history: the number of pushes
   before it began, the serials of the entries it has called so far, and what for.
   */
  datatype Frame = Frame(
    evType: int, target: nat, modal: nat, info: Option<Ptr>, inside: bool, born: nat, calls: seq<nat>,
    reasons: seq<Called>)

  type Handlers = Heap<Handler>
  type Windows = map<Ptr, Window>

  // ----- the invariant

  /** How many activations are inside the callback of p. */
  function Inside(frames: seq<Frame>, p: Ptr): nat {
    if frames == [] then 0
    else
      var f := frames[|frames| - 1];
      Inside(frames[..|frames| - 1], p) + (if f.inside && f.info == Some(p) then 1 else 0)
  }

  /** The reference counts: one for the list, one for each activation inside the callback; none is zero. */
  ghost predicate RefsRight(heap: Handlers, s: seq<Ptr>, frames: seq<Frame>) {
    forall p :: p in heap ==>
      heap[p].data.refcount == (if p in s then 1 else 0) + Inside(frames, p) && heap[p].data.refcount > 0
  }

  /** An entry has a window, and a live one, exactly while it is linked. */
  ghost predicate WindowsLive(heap: Handlers, windows: Windows, s: seq<Ptr>) {
    forall p :: p in heap ==>
      (p in s <==> heap[p].data.win.Some?) && (heap[p].data.win.Some? ==> heap[p].data.win.value in windows)
  }

  /** The list runs from the latest push to the earliest. */
  ghost predicate NewestFirst(heap: Handlers, s: seq<Ptr>, next: nat)
    requires forall i :: 0 <= i < |s| ==> s[i] in heap
  {
    && (forall i, j :: 0 <= i < j < |s| ==> heap[s[i]].data.serial > heap[s[j]].data.serial)
    && (forall p :: p in heap ==> heap[p].data.serial < next)
  }

  ghost predicate Decreasing(calls: seq<nat>) {
    forall i, j :: 0 <= i < j < |calls| ==> calls[i] > calls[j]
  }

  /** Where an activation stands: the serial of its entry, or -1 past the end. */
  function At(heap: Handlers, f: Frame): int {
    if f.info.Some? && f.info.value in heap then heap[f.info.value].data.serial else -1
  }

  /** The handler at p is for the window and modal session that f is dispatching to. */
  predicate Matches(heap: Handlers, windows: Windows, f: Frame, p: Ptr) {
    && p in heap && heap[p].data.win.Some? && heap[p].data.win.value in windows
    && windows[heap[p].data.win.value].id == f.target && windows[heap[p].data.win.value].modalID == f.modal
  }

  /** Every matching handler that was there at the start and that f is past, and that is still there, was called. */
  ghost predicate NoneSkipped(heap: Handlers, windows: Windows, s: seq<Ptr>, f: Frame) {
    forall p :: p in s && p in heap && Matches(heap, windows, f, p) && At(heap, f) < heap[p].data.serial < f.born ==>
      heap[p].data.serial in f.calls
  }

  /** Every entry called was one of the window aimed at, and of its session unless focus was being taken away. */
  ghost predicate CallsAreAimed(f: Frame) {
    && |f.reasons| == |f.calls|
    && forall k :: 0 <= k < |f.reasons| ==>
         f.reasons[k].id == f.target && (f.reasons[k].modalID == f.modal || f.reasons[k].evType == EVENT_FOCUS_OUT)
  }

  ghost predicate FrameOk(heap: Handlers, windows: Windows, s: seq<Ptr>, next: nat, f: Frame) {
    && f.born <= next
    && Decreasing(f.calls) && (forall c :: c in f.calls ==> c < f.born)
    && (f.info.Some? ==> f.info.value in heap && At(heap, f) < f.born)
    && (f.inside ==> f.info.Some? && |f.calls| > 0 && f.calls[|f.calls| - 1] == At(heap, f))
    && (!f.inside && f.info.Some? ==> f.info.value in s)
    && (!f.inside && |f.calls| > 0 ==> At(heap, f) < f.calls[|f.calls| - 1])
    && NoneSkipped(heap, windows, s, f) && CallsAreAimed(f)
  }

  ghost predicate FramesOk(heap: Handlers, windows: Windows, s: seq<Ptr>, next: nat, frames: seq<Frame>) {
    && (forall i :: 0 <= i < |frames| ==> FrameOk(heap, windows, s, next, frames[i]))
    && (forall i :: 0 <= i < |frames| - 1 ==> frames[i].inside)
  }

  // ----- facts about the pieces

  lemma {:induction false} InsideZero(frames: seq<Frame>, p: Ptr)
    requires forall i :: 0 <= i < |frames| ==> frames[i].info != Some(p)
    ensures Inside(frames, p) == 0
  {
    if frames != [] {
      assert frames[|frames| - 1].info != Some(p);
      InsideZero(frames[..|frames| - 1], p);
    }
  }

  lemma {:induction false} InsidePositive(frames: seq<Frame>, i: nat)
    requires i < |frames| && frames[i].inside && frames[i].info.Some?
    ensures Inside(frames, frames[i].info.value) > 0
  {
    if i < |frames| - 1 {
      assert frames[..|frames| - 1][i] == frames[i];
      InsidePositive(frames[..|frames| - 1], i);
    }
  }

  lemma InsideSnoc(rest: seq<Frame>, f: Frame, p: Ptr)
    ensures Inside(rest + [f], p) == Inside(rest, p) + (if f.inside && f.info == Some(p) then 1 else 0)
  {
    assert (rest + [f])[..|rest|] == rest;
  }

  // ----- reference counts

  ghost predicate SameButRefcount(a: HandlerInfo, b: HandlerInfo) {
    b == a.(data := a.data.(refcount := b.data.refcount))
  }

  function AddRef(heap: Handlers, p: Ptr): Handlers
    requires p in heap
  {
    heap[p := heap[p].(data := heap[p].data.(refcount := heap[p].data.refcount + 1))]
  }

  /** gwmHandlerDecref: give up one reference, and the record itself with the last. */
  function Decref(heap: Handlers, p: Ptr): Handlers
    requires p in heap
  {
    if heap[p].data.refcount - 1 == 0 then heap - {p}
    else heap[p := heap[p].(data := heap[p].data.(refcount := heap[p].data.refcount - 1))]
  }

  lemma NewestFirstAgree(heap: Handlers, h: Handlers, s: seq<Ptr>, next: nat)
    requires forall i :: 0 <= i < |s| ==> s[i] in heap && s[i] in h && h[s[i]].data.serial == heap[s[i]].data.serial
    requires NewestFirst(heap, s, next) && forall q :: q in h ==> q in heap && h[q].data.serial == heap[q].data.serial
    ensures NewestFirst(h, s, next)
  {
  }

  /** Dropping a reference that is not the list's leaves the list alone. */
  lemma DecrefKeepsList(heap: Handlers, windows: Windows, first: Option<Ptr>, s: seq<Ptr>, next: nat, p: Ptr)
    requires Linked(heap, first, s) && WindowsLive(heap, windows, s) && NewestFirst(heap, s, next)
    requires p in heap && (p in s ==> heap[p].data.refcount > 1)
    ensures var h := Decref(heap, p);
            Linked(h, first, s) && WindowsLive(h, windows, s) && NewestFirst(h, s, next)
  {
    var h := Decref(heap, p);
    forall i | 0 <= i < |s|
      ensures s[i] in h && SameButRefcount(heap[s[i]], h[s[i]])
    {
      if s[i] == p { assert p in s; }
    }
    LinkedAgree(heap, h, first, s);
    NewestFirstAgree(heap, h, s, next);
    DecrefWindows(heap, windows, s, p);
  }

  lemma DecrefWindows(heap: Handlers, windows: Windows, s: seq<Ptr>, p: Ptr)
    requires WindowsLive(heap, windows, s) && p in heap
    ensures WindowsLive(Decref(heap, p), windows, s)
  {
  }

  lemma DecrefKeepsFrame(heap: Handlers, windows: Windows, s: seq<Ptr>, next: nat, p: Ptr, f: Frame)
    requires FrameOk(heap, windows, s, next, f) && p in heap && (p in s ==> heap[p].data.refcount > 1)
    requires f.info == Some(p) ==> heap[p].data.refcount > 1
    ensures FrameOk(Decref(heap, p), windows, s, next, f)
  {
    var h := Decref(heap, p);
    assert At(h, f) == At(heap, f);
    forall q | q in s && q in h && Matches(h, windows, f, q) && At(h, f) < h[q].data.serial < f.born
      ensures h[q].data.serial in f.calls
    {
      assert Matches(heap, windows, f, q);
    }
  }

  /** Leaving the callback of the last frame gives back exactly the reference that frame held. */
  lemma LeaveRefs(heap: Handlers, s: seq<Ptr>, rest: seq<Frame>, f: Frame)
    requires RefsRight(heap, s, rest + [f]) && f.inside && f.info.Some? && f.info.value in heap
    ensures RefsRight(Decref(heap, f.info.value), s, rest)
    ensures f.info.value in s ==> heap[f.info.value].data.refcount > 1
    ensures forall i :: 0 <= i < |rest| && rest[i].inside && rest[i].info == f.info ==>
      heap[f.info.value].data.refcount > 1
  {
    var p := f.info.value;
    forall q ensures Inside(rest + [f], q) == Inside(rest, q) + (if q == p then 1 else 0) {
      InsideSnoc(rest, f, q);
    }
    forall i | 0 <= i < |rest| && rest[i].inside && rest[i].info == f.info
      ensures Inside(rest, p) > 0
    {
      InsidePositive(rest, i);
    }
  }

  /** Leaving a callback: the list and the order of pushes are as before, and so is every other activation. */
  lemma LeaveCallback(
    heap: Handlers, windows: Windows, first: Option<Ptr>, s: seq<Ptr>, next: nat, rest: seq<Frame>, f: Frame
  )
    requires Linked(heap, first, s) && WindowsLive(heap, windows, s) && NewestFirst(heap, s, next)
    requires RefsRight(heap, s, rest + [f]) && FramesOk(heap, windows, s, next, rest + [f])
    requires f.inside && f.info.Some?
    ensures f.info.value in heap && (f.info.value in s ==> heap[f.info.value].data.refcount > 1)
    ensures var h := Decref(heap, f.info.value);
            && Linked(h, first, s) && WindowsLive(h, windows, s) && NewestFirst(h, s, next)
            && RefsRight(h, s, rest) && FramesOk(h, windows, s, next, rest)
    ensures forall i :: 0 <= i < |rest| ==> rest[i].inside
  {
    hide Linked, WindowsLive, NewestFirst, RefsRight;
    var all, p := rest + [f], f.info.value;
    assert all[|rest|] == f;
    assert FrameOk(heap, windows, s, next, all[|rest|]);
    LeaveRefs(heap, s, rest, f);
    DecrefKeepsList(heap, windows, first, s, next, p);
    forall i | 0 <= i < |rest|
      ensures rest[i].inside && FrameOk(Decref(heap, p), windows, s, next, rest[i])
    {
      assert all[i] == rest[i];
      DecrefKeepsFrame(heap, windows, s, next, p, rest[i]);
    }
  }

  // ----- what the steps come to

  datatype Turn = AtEnd | Redirect | Call | Skip

  /** What the loop does at the entry the activation stands on. */
  function TurnOf(heap: Handlers, windows: Windows, f: Frame): Turn {
    if f.info == None || f.info.value !in heap then AtEnd
    else if heap[f.info.value].data.win == None || heap[f.info.value].data.win.value !in windows then AtEnd
    else
      var win := windows[heap[f.info.value].data.win.value];
      if f.target != win.id then Skip
      else if win.modalID == f.modal || f.evType == EVENT_FOCUS_OUT then Call
      else if f.evType == EVENT_FOCUS_IN then Redirect
      else Skip
  }

  /** The activation inside the callback of its entry, which has the window win. */
  function Entered(f: Frame, serial: nat, win: Window): Frame {
    f.(inside := true, calls := f.calls + [serial],
       reasons := f.reasons + [Called(win.id, win.modalID, f.evType)])
  }

  function TurnResult(heap: Handlers, windows: Windows, f: Frame): Option<Status> {
    match TurnOf(heap, windows, f)
    case AtEnd => Some(Ok)
    case Redirect => Some(Ok)
    case _ => None
  }

  function TurnFrames(heap: Handlers, windows: Windows, f: Frame): seq<Frame> {
    match TurnOf(heap, windows, f)
    case AtEnd => []
    case Redirect => []
    case Call =>
      var e := heap[f.info.value].data;
      [Entered(f, e.serial, windows[e.win.value])]
    case Skip => [f.(info := heap[f.info.value].next)]
  }

  function TurnHeap(heap: Handlers, windows: Windows, f: Frame): Handlers {
    match TurnOf(heap, windows, f)
    case Call => AddRef(heap, f.info.value)
    case _ => heap
  }

  /** What the sweep does to the record of p. */
  function Swept(e: HandlerInfo): HandlerInfo {
    e.(data := e.data.(win := None, refcount := e.data.refcount - 1))
  }

  ghost predicate SameButLinks(a: HandlerInfo, b: HandlerInfo) {
    b == a.(prev := b.prev, next := b.next)
  }

  /** The list s is s0 without the handlers of w among its first n. */
  ghost predicate Survivors(h0: Handlers, s: seq<Ptr>, s0: seq<Ptr>, n: nat, w: Ptr)
    requires n <= |s0|
  {
    forall p :: p in s <==> p in s0 && !(p in s0[..n] && p in h0 && h0[p].data.win == Some(w))
  }

  /**
   The handlers of w among done have lost the list's reference and their window; nothing
   else has changed but links.
   */
  ghost predicate Removed(h0: Handlers, h: Handlers, done: seq<Ptr>, w: Ptr) {
    && (forall p :: p in h ==> p in h0)
    && forall p :: p in h0 ==>
         if p in done && h0[p].data.win == Some(w) then
           (p in h <==> h0[p].data.refcount != 1) && (p in h ==> SameButLinks(Swept(h0[p]), h[p]))
         else p in h && SameButLinks(h0[p], h[p])
  }

  /** The loop invariant of the sweep over the list s0, n entries done. */
  ghost predicate Sweep(
    h0: Handlers, h: Handlers, first: Option<Ptr>, s: seq<Ptr>, next: nat, s0: seq<Ptr>, n: nat, w: Ptr
  ) {
    && n <= |s0| && |s| >= |s0| - n && s[|s| - (|s0| - n)..] == s0[n..] && Distinct(s0)
    && (forall i :: 0 <= i < |s0| ==> s0[i] in h0)
    && Survivors(h0, s, s0, n, w)
    && Linked(h, first, s) && NewestFirst(h, s, next)
    && Removed(h0, h, s0[..n], w)
  }

  /** Take p out of the list and give up the list's reference to it. */
  function Drop(h: Handlers, p: Ptr): Handlers
    requires p in h
  {
    var u := Unlink(h, p);
    if p in u then Decref(u[p := u[p].(data := u[p].data.(win := None))], p) else u
  }

  ghost predicate Consistent(
    heap: Handlers, windows: Windows, first: Option<Ptr>, s: seq<Ptr>, next: nat, frames: seq<Frame>
  ) {
    && Linked(heap, first, s) && RefsRight(heap, s, frames) && WindowsLive(heap, windows, s)
    && NewestFirst(heap, s, next) && FramesOk(heap, windows, s, next, frames)
  }

  // ----- the toolkit state

  class Toolkit {
    var heap: Handlers
    var windows: Windows
    var firstHandler: Option<Ptr>
    var frames: seq<Frame>
    var nextSerial: nat
    ghost var order: seq<Ptr>

    ghost predicate Valid()
      reads this
    {
      && Linked(heap, firstHandler, order)
      && RefsRight(heap, order, frames)
      && WindowsLive(heap, windows, order)
      && NewestFirst(heap, order, nextSerial)
      && FramesOk(heap, windows, order, nextSerial, frames)
    }

    /** User code is running: the main program, or a callback. */
    predicate UserCode()
      reads this
    {
      frames == [] || frames[|frames| - 1].inside
    }

    constructor ()
      ensures Valid() && order == [] && frames == [] && windows == map[]
    {
      heap := map[];
      windows := map[];
      firstHandler := None;
      frames := [];
      nextSerial := 0;
      order := [];
    }

    /** gwmPushEventHandler; malloc may return any address not in use. */
    method PushEventHandler(win: Ptr, callback: nat, p: Ptr)
      requires Valid() && UserCode() && win in windows && p !in heap
      modifies this
      ensures Valid()
      ensures order == [p] + old(order) && frames == old(frames) && windows == old(windows)
      ensures firstHandler == Some(p) && nextSerial == old(nextSerial) + 1
      ensures heap == Push(old(heap), old(firstHandler), p, Handler(Some(win), callback, 1, old(nextSerial)))
    {
      ghost var e := Handler(Some(win), callback, 1, nextSerial);
      hide Linked, RefsRight, WindowsLive, NewestFirst, FramesOk;
      PushKeeps(heap, windows, firstHandler, order, nextSerial, frames, p, e);
      heap := heap[p := Node(None, firstHandler, Handler(Some(win), callback, 1, nextSerial))];
      if firstHandler.Some? {
        heap := heap[firstHandler.value := heap[firstHandler.value].(prev := Some(p))];
      }
      assert heap == Push(old(heap), firstHandler, p, e);
      firstHandler := Some(p);
      order := [p] + order;
      nextSerial := nextSerial + 1;
    }

    /** gwmCreateWindow, as far as it concerns handlers: the new window gets the default handler. */
    method CreateWindow(w: Ptr, id: nat, modalID: nat, defaultHandler: nat, p: Ptr)
      requires Valid() && UserCode() && w !in windows && p !in heap
      modifies this
      ensures Valid() && windows == old(windows)[w := Window(id, modalID)]
      ensures order == [p] + old(order) && frames == old(frames) && nextSerial == old(nextSerial) + 1
      ensures heap == Push(old(heap), old(firstHandler), p, Handler(Some(w), defaultHandler, 1, old(nextSerial)))
    {
      hide Linked, RefsRight, WindowsLive, NewestFirst, FramesOk, Push;
      NewWindowKeeps(heap, windows, order, nextSerial, frames, w, Window(id, modalID));
      windows := windows[w := Window(id, modalID)];
      PushEventHandler(w, defaultHandler, p);
    }

    /** Entering gwmPostEventByWindowID. */
    method BeginDispatch(evType: int, target: nat, modal: nat)
      requires Valid() && UserCode()
      modifies this`frames
      ensures Valid() && !UserCode()
      ensures frames == old(frames) + [Frame(evType, target, modal, firstHandler, false, nextSerial, [], [])]
    {
      hide Linked, RefsRight, WindowsLive, NewestFirst, FramesOk;
      ghost var f := Frame(evType, target, modal, firstHandler, false, nextSerial, [], []);
      BeginKeeps(heap, windows, firstHandler, order, nextSerial, frames, f);
      frames := frames + [Frame(evType, target, modal, firstHandler, false, nextSerial, [], [])];
    }

    /**
     One turn of the dispatch loop: end of the list, redirect of the focus, call
     of a matching handler, or on to the next entry.  `done` is the status when
     the activation returns, `refocus` whether the focus goes to the modal master.
     */
    method LoopTurn() returns (done: Option<Status>, refocus: bool)
      requires Valid() && !UserCode()
      modifies this`frames, this`heap
      ensures Valid()
      ensures
        var f := old(frames[|frames| - 1]);
        var rest := old(frames)[..|old(frames)| - 1];
        && done == TurnResult(old(heap), windows, f)
        && frames == rest + TurnFrames(old(heap), windows, f)
        && heap == TurnHeap(old(heap), windows, f)
      ensures
        var f := old(frames[|frames| - 1]);
        var rest := old(frames)[..|old(frames)| - 1];
        if f.info == None then done == Some(Ok) && !refocus && frames == rest && heap == old(heap)
        else
          && f.info.value in old(heap)
          && old(heap)[f.info.value].data.win.Some? && old(heap)[f.info.value].data.win.value in windows
          && var e := old(heap)[f.info.value];
          var win := windows[e.data.win.value];
          if win.id == f.target && f.evType == EVENT_FOCUS_IN && win.modalID != f.modal then
            done == Some(Ok) && refocus && frames == rest && heap == old(heap)
          else if win.id == f.target && (win.modalID == f.modal || f.evType == EVENT_FOCUS_OUT) then
            && done == None && !refocus
            && frames == rest + [f.(inside := true, calls := f.calls + [e.data.serial],
                                    reasons := f.reasons + [Called(win.id, win.modalID, f.evType)])]
            && heap == old(heap)[f.info.value := e.(data := e.data.(refcount := e.data.refcount + 1))]
          else
            done == None && !refocus && frames == rest + [f.(info := e.next)] && heap == old(heap)
    {
      hide Linked, RefsRight, WindowsLive, NewestFirst, FramesOk;
      var n := |frames| - 1;
      var f := frames[n];
      assert frames == frames[..n] + [f];
      TurnKeeps(heap, windows, firstHandler, order, nextSerial, frames[..n], f);
      assert frames[..n] + [] == frames[..n];
      done, refocus := None, false;
      if f.info == None {
        frames := frames[..n];
        done := Some(Ok);
      } else {
        var info := f.info.value;
        var win := windows[heap[info].data.win.value];
        if f.target == win.id && f.evType == EVENT_FOCUS_IN && win.modalID != f.modal {
          frames := frames[..n];
          done, refocus := Some(Ok), true;
        } else if f.target == win.id && (win.modalID == f.modal || f.evType == EVENT_FOCUS_OUT) {
          heap := heap[info := heap[info].(data := heap[info].data.(refcount := heap[info].data.refcount + 1))];
          frames := frames[..n] + [Entered(f, heap[info].data.serial, win)];
        } else {
          frames := frames[..n] + [f.(info := heap[info].next)];
        }
      }
    }

    /** The callback of the last activation returns; it may have changed the type of the event. */
    method CallbackReturns(status: Status, evType: int) returns (done: Option<Status>)
      requires Valid() && frames != [] && frames[|frames| - 1].inside
      modifies this`frames, this`heap
      ensures Valid()
      ensures var f := old(frames[|frames| - 1]); var rest := old(frames)[..|old(frames)| - 1];
              f.info.Some? && f.info.value in old(heap)
              && var p := f.info.value; var e := old(heap)[p];
              heap == Decref(old(heap), p)
              && done == (if status != Cont then Some(status) else if e.data.win == None then Some(Ok) else None)
              && frames == if done.Some? then rest else rest + [f.(evType := evType, inside := false, info := e.next)]
    {
      hide Linked, RefsRight, WindowsLive, NewestFirst;
      var n := |frames| - 1;
      var f := frames[n];
      assert frames == frames[..n] + [f];
      assert FrameOk(heap, windows, order, nextSerial, frames[n]);
      hide FramesOk, FrameOk;
      var info := f.info.value;
      LeaveCallback(heap, windows, firstHandler, order, nextSerial, frames[..n], f);
      ReturnKeeps(heap, windows, firstHandler, order, nextSerial, frames[..n], f, evType);
      var winWas := heap[info].data.win;
      var next := heap[info].next;
      if heap[info].data.refcount - 1 == 0 {
        heap := heap - {info};
      } else {
        heap := heap[info := heap[info].(data := heap[info].data.(refcount := heap[info].data.refcount - 1))];
      }
      if status != Cont {
        frames := frames[..n];
        done := Some(status);
      } else if winWas == None {
        frames := frames[..n];
        done := Some(Ok);
      } else {
        frames := frames[..n] + [f.(evType := evType, inside := false, info := next)];
        done := None;
      }
    }

    /** The body of the sweep in gwmDestroyWindow: unlink the entry, take its window away, drop the list's reference. */
    method RemoveHandler(p: Ptr)
      requires p in heap && heap[p].prev != Some(p) && heap[p].next != Some(p)
      requires (heap[p].prev.Some? ==> heap[p].prev.value in heap)
      requires (heap[p].next.Some? ==> heap[p].next.value in heap)
      modifies this`heap, this`firstHandler
      ensures heap == Drop(old(heap), p)
      ensures firstHandler == if old(firstHandler) == Some(p) then old(heap)[p].next else old(firstHandler)
    {
      var e := heap[p];
      if e.prev.Some? { heap := heap[e.prev.value := heap[e.prev.value].(next := e.next)]; }
      if e.next.Some? { heap := heap[e.next.value := heap[e.next.value].(prev := e.prev)]; }
      assert heap == Unlink(old(heap), p);
      if firstHandler == Some(p) { firstHandler := e.next; }
      heap := heap[p := heap[p].(data := heap[p].data.(win := None))];
      if heap[p].data.refcount - 1 == 0 {
        heap := heap - {p};
      } else {
        heap := heap[p := heap[p].(data := heap[p].data.(refcount := heap[p].data.refcount - 1))];
      }
    }

    /**
     gwmDestroyWindow: take every handler of the window out of the list.  A
     handler inside whose callback some activation stands keeps its record,
     without a window, until the callback returns.  `sent` is whether the server
     took the command; if it did not, nothing happens.
     */
    method DestroyWindow(w: Ptr, sent: bool)
      requires Valid() && UserCode() && w in windows
      modifies this`heap, this`windows, this`firstHandler, this`order
      ensures Valid()
      ensures !sent ==> heap == old(heap) && windows == old(windows) && order == old(order)
      ensures sent ==> windows == old(windows) - {w}
      ensures sent ==> forall p :: p in order <==> p in old(order) && p in old(heap) && old(heap)[p].data.win != Some(w)
      ensures sent ==> Removed(old(heap), heap, old(order), w)
    {
      hide Linked, RefsRight, WindowsLive, NewestFirst, FramesOk, Removed, Sweep;
      if !sent { return; }
      ghost var h0, first0, s0 := heap, firstHandler, order;
      ghost var n := 0;
      SweepStart(h0, first0, s0, nextSerial, w);
      LinkedInHeap(h0, first0, s0);
      assert s0[0..] == s0;
      var info := firstHandler;
      while info != None
        invariant n <= |s0| && Sweep(h0, heap, firstHandler, order, nextSerial, s0, n, w)
        invariant info == HeadOf(s0[n..]) && windows == old(windows)
        decreases |s0| - n
      {
        var p := info.value;
        SweepKeep(h0, heap, firstHandler, order, nextSerial, s0, n, w);
        var next := heap[p].next;
        if heap[p].data.win == Some(w) {
          SweepDrop(h0, heap, firstHandler, order, nextSerial, s0, n, w);
          RemoveHandler(p);
          order := Without(order, |order| - (|s0| - n));
        }
        info := next;
        n := n + 1;
      }
      SweepDone(h0, heap, windows, first0, firstHandler, order, nextSerial, s0, w, frames);
      windows := windows - {w};
    }
  }

  // ----- what every step keeps

  lemma PushKeeps(
    heap: Handlers, windows: Windows, first: Option<Ptr>, s: seq<Ptr>, next: nat, frames: seq<Frame>, p: Ptr, e: Handler
  )
    requires Linked(heap, first, s) && RefsRight(heap, s, frames) && WindowsLive(heap, windows, s)
    requires NewestFirst(heap, s, next) && FramesOk(heap, windows, s, next, frames)
    requires p !in heap && e.win.Some? && e.win.value in windows && e.refcount == 1 && e.serial == next
    ensures first.Some? ==> first.value in heap
    ensures var h, t := Push(heap, first, p, e), [p] + s;
            && Linked(h, Some(p), t) && RefsRight(h, t, frames) && WindowsLive(h, windows, t)
            && NewestFirst(h, t, next + 1) && FramesOk(h, windows, t, next + 1, frames)
  {
    PushLinks(heap, first, s, p, e);
    var h, t := Push(heap, first, p, e), [p] + s;
    PushKeepsFrames(heap, h, windows, s, p, next, frames);
    PushRefs(heap, h, windows, s, p, next, frames);
    PushOrder(heap, h, s, p, next);
    forall q | q in h
      ensures (q in t <==> h[q].data.win.Some?) && (h[q].data.win.Some? ==> h[q].data.win.value in windows)
    {
      assert q in t <==> q == p || q in s;
    }
  }

  lemma PushOrder(heap: Handlers, h: Handlers, s: seq<Ptr>, p: Ptr, next: nat)
    requires p !in heap && h.Keys == heap.Keys + {p} && h[p].data.serial == next
    requires forall q :: q in heap ==> h[q] == heap[q].(prev := h[q].prev)
    requires (forall i :: 0 <= i < |s| ==> s[i] in heap) && NewestFirst(heap, s, next)
    ensures NewestFirst(h, [p] + s, next + 1)
  {
    var t := [p] + s;
    forall i, j | 0 <= i < j < |t| ensures h[t[i]].data.serial > h[t[j]].data.serial {
      assert t[j] == s[j - 1] && s[j - 1] in heap;
      if i > 0 { assert t[i] == s[i - 1] && s[i - 1] in heap; }
    }
  }

  lemma PushRefs(heap: Handlers, h: Handlers, windows: Windows, s: seq<Ptr>, p: Ptr, next: nat, frames: seq<Frame>)
    requires p !in heap && h.Keys == heap.Keys + {p} && h[p].data.refcount == 1
    requires forall q :: q in heap ==> h[q] == heap[q].(prev := h[q].prev)
    requires RefsRight(heap, s, frames) && FramesOk(heap, windows, s, next, frames)
    ensures RefsRight(h, [p] + s, frames)
  {
    forall i | 0 <= i < |frames| ensures frames[i].info != Some(p) {
      assert FrameOk(heap, windows, s, next, frames[i]);
    }
    InsideZero(frames, p);
    forall q | q in h ensures h[q].data.refcount == (if q in [p] + s then 1 else 0) + Inside(frames, q) > 0 {
      assert q in [p] + s <==> q == p || q in s;
    }
  }

  lemma PushKeepsFrames(
    heap: Handlers, h: Handlers, windows: Windows, s: seq<Ptr>, p: Ptr, next: nat, frames: seq<Frame>
  )
    requires p !in heap && h.Keys == heap.Keys + {p} && h[p].data.serial == next
    requires forall q :: q in heap ==> h[q] == heap[q].(prev := h[q].prev)
    requires FramesOk(heap, windows, s, next, frames)
    ensures FramesOk(h, windows, [p] + s, next + 1, frames)
  {
    forall i | 0 <= i < |frames|
      ensures FrameOk(h, windows, [p] + s, next + 1, frames[i])
    {
      var f := frames[i];
      assert FrameOk(heap, windows, s, next, f);
      assert At(h, f) == At(heap, f);
      forall q | q in [p] + s && q in h && Matches(h, windows, f, q) && At(h, f) < h[q].data.serial < f.born
        ensures h[q].data.serial in f.calls
      {
        assert q != p;
        assert q in s && Matches(heap, windows, f, q);
      }
    }
  }

  lemma NewWindowKeeps(
    heap: Handlers, windows: Windows, s: seq<Ptr>, next: nat, frames: seq<Frame>, w: Ptr, win: Window
  )
    requires WindowsLive(heap, windows, s) && FramesOk(heap, windows, s, next, frames) && w !in windows
    ensures WindowsLive(heap, windows[w := win], s) && FramesOk(heap, windows[w := win], s, next, frames)
  {
    forall i | 0 <= i < |frames|
      ensures FrameOk(heap, windows[w := win], s, next, frames[i])
    {
      assert FrameOk(heap, windows, s, next, frames[i]);
      assert forall q :: q in s && Matches(heap, windows[w := win], frames[i], q) ==>
          Matches(heap, windows, frames[i], q);
    }
  }

  lemma FramesSnoc(heap: Handlers, windows: Windows, s: seq<Ptr>, next: nat, rest: seq<Frame>, f: Frame)
    requires FramesOk(heap, windows, s, next, rest) && FrameOk(heap, windows, s, next, f)
    requires rest == [] || rest[|rest| - 1].inside
    ensures FramesOk(heap, windows, s, next, rest + [f])
  {
    var t := rest + [f];
    forall i | 0 <= i < |t| ensures FrameOk(heap, windows, s, next, t[i]) {
      if i < |rest| { assert t[i] == rest[i]; }
    }
  }

  lemma FramesInit(heap: Handlers, windows: Windows, s: seq<Ptr>, next: nat, rest: seq<Frame>, f: Frame)
    requires FramesOk(heap, windows, s, next, rest + [f])
    ensures FramesOk(heap, windows, s, next, rest) && FrameOk(heap, windows, s, next, f)
    ensures forall i :: 0 <= i < |rest| ==> rest[i].inside
  {
    var t := rest + [f];
    assert t[|rest|] == f;
    assert forall i :: 0 <= i < |rest| ==> t[i] == rest[i];
  }

  lemma BeginKeeps(
    heap: Handlers, windows: Windows, first: Option<Ptr>, s: seq<Ptr>, next: nat, frames: seq<Frame>, f: Frame
  )
    requires Consistent(heap, windows, first, s, next, frames) && (frames == [] || frames[|frames| - 1].inside)
    requires !f.inside && f.info == first && f.born == next && f.calls == [] && f.reasons == []
    ensures Consistent(heap, windows, first, s, next, frames + [f])
  {
    RefsIgnoreWalker(heap, s, frames, f);
    FramesSnoc(heap, windows, s, next, frames, f);
  }

  lemma RefsIgnoreWalker(heap: Handlers, s: seq<Ptr>, rest: seq<Frame>, f: Frame)
    requires !f.inside
    ensures RefsRight(heap, s, rest + [f]) <==> RefsRight(heap, s, rest)
  {
    forall q ensures Inside(rest + [f], q) == Inside(rest, q) {
      InsideSnoc(rest, f, q);
    }
  }

  /** Moving on from entry p, called or not wanted, leaves no matching handler behind uncalled. */
  lemma NextPosition(
    heap: Handlers, windows: Windows, first: Option<Ptr>, s: seq<Ptr>, next: nat, f: Frame, evType: int
  )
    requires Linked(heap, first, s) && NewestFirst(heap, s, next) && FrameOk(heap, windows, s, next, f)
    requires f.info.Some? && f.info.value in s
    requires Matches(heap, windows, f, f.info.value) ==> heap[f.info.value].data.serial in f.calls
    ensures FrameOk(heap, windows, s, next, f.(evType := evType, inside := false, info := heap[f.info.value].next))
  {
    var p := f.info.value;
    var g := f.(evType := evType, inside := false, info := heap[p].next);
    var k :| 0 <= k < |s| && s[k] == p;
    forall q | q in s && q in heap && Matches(heap, windows, g, q) && At(heap, g) < heap[q].data.serial < g.born
      ensures heap[q].data.serial in g.calls
    {
      var j :| 0 <= j < |s| && s[j] == q;
      assert Matches(heap, windows, f, q);
      assert j <= k;
    }
  }

  lemma EnterKeeps(
    heap: Handlers, windows: Windows, first: Option<Ptr>, s: seq<Ptr>, next: nat, rest: seq<Frame>, f: Frame
  )
    requires Consistent(heap, windows, first, s, next, rest + [f]) && !f.inside && f.info.Some?
    requires TurnOf(heap, windows, f) == Call
    ensures f.info.value in heap
    ensures var p := f.info.value; var h := AddRef(heap, p);
            Consistent(h, windows, first, s, next,
                       rest + [Entered(f, heap[p].data.serial, windows[heap[p].data.win.value])])
  {
    hide Linked, NewestFirst, WindowsLive, RefsRight, FrameOk;
    FramesInit(heap, windows, s, next, rest, f);
    EntryLive(heap, windows, s, next, f);
    var p := f.info.value;
    var h := AddRef(heap, p);
    var win := windows[heap[p].data.win.value];
    var g := Entered(f, heap[p].data.serial, win);
    RecountKeepsList(heap, windows, first, s, next, p);
    EnterRefs(heap, s, rest, f, win);
    forall i | 0 <= i < |rest| ensures FrameOk(h, windows, s, next, rest[i]) {
      RecountKeepsFrame(heap, h, windows, s, next, rest[i]);
    }
    RecountKeepsFrame(heap, h, windows, s, next, f);
    EnterFrame(h, windows, s, next, f, win);
    FramesSnoc(h, windows, s, next, rest, g);
  }

  lemma EntryLive(heap: Handlers, windows: Windows, s: seq<Ptr>, next: nat, f: Frame)
    requires FrameOk(heap, windows, s, next, f) && WindowsLive(heap, windows, s)
    ensures f.info.Some? ==> f.info.value in heap
    ensures f.info.Some? && !f.inside ==>
              f.info.value in s && heap[f.info.value].data.win.Some? && heap[f.info.value].data.win.value in windows
  {
  }

  lemma RecountKeepsList(heap: Handlers, windows: Windows, first: Option<Ptr>, s: seq<Ptr>, next: nat, p: Ptr)
    requires Linked(heap, first, s) && WindowsLive(heap, windows, s) && NewestFirst(heap, s, next) && p in heap
    ensures var h := AddRef(heap, p);
            Linked(h, first, s) && WindowsLive(h, windows, s) && NewestFirst(h, s, next)
  {
    var h := AddRef(heap, p);
    LinkedAgree(heap, h, first, s);
    NewestFirstAgree(heap, h, s, next);
    RecountWindows(heap, windows, s, p);
  }

  lemma RecountWindows(heap: Handlers, windows: Windows, s: seq<Ptr>, p: Ptr)
    requires WindowsLive(heap, windows, s) && p in heap
    ensures WindowsLive(AddRef(heap, p), windows, s)
  {
  }

  lemma EnterFrame(heap: Handlers, windows: Windows, s: seq<Ptr>, next: nat, f: Frame, win: Window)
    requires FrameOk(heap, windows, s, next, f) && !f.inside && f.info.Some? && f.info.value in heap
    requires win.id == f.target && (win.modalID == f.modal || f.evType == EVENT_FOCUS_OUT)
    ensures FrameOk(heap, windows, s, next, Entered(f, heap[f.info.value].data.serial, win))
  {
    var c := heap[f.info.value].data.serial;
    var g := Entered(f, c, win);
    assert forall x :: x in g.calls <==> x in f.calls || x == c;
    assert forall i :: 0 <= i < |f.calls| ==> f.calls[i] >= f.calls[|f.calls| - 1] > c;
    assert At(heap, g) == At(heap, f) == c;
    forall q | q in s && q in heap && Matches(heap, windows, g, q) && At(heap, g) < heap[q].data.serial < g.born
      ensures heap[q].data.serial in g.calls
    {
      assert Matches(heap, windows, f, q);
    }
  }

  lemma RecountKeepsFrame(heap: Handlers, h: Handlers, windows: Windows, s: seq<Ptr>, next: nat, f: Frame)
    requires FrameOk(heap, windows, s, next, f) && h.Keys == heap.Keys
    requires forall q :: q in heap ==> SameButRefcount(heap[q], h[q])
    ensures FrameOk(h, windows, s, next, f)
  {
    assert At(h, f) == At(heap, f);
    forall q | q in s && q in h && Matches(h, windows, f, q) && At(h, f) < h[q].data.serial < f.born
      ensures h[q].data.serial in f.calls
    {
      assert Matches(heap, windows, f, q);
    }
  }

  lemma EnterRefs(heap: Handlers, s: seq<Ptr>, rest: seq<Frame>, f: Frame, win: Window)
    requires RefsRight(heap, s, rest + [f]) && !f.inside && f.info.Some? && f.info.value in heap
    ensures var p := f.info.value;
            RefsRight(AddRef(heap, p), s, rest + [Entered(f, heap[p].data.serial, win)])
  {
    var p := f.info.value;
    var g := Entered(f, heap[p].data.serial, win);
    forall q ensures Inside(rest + [g], q) == Inside(rest + [f], q) + (if q == p then 1 else 0) {
      InsideSnoc(rest, f, q);
      InsideSnoc(rest, g, q);
    }
  }

  /** One turn of the loop keeps the invariant, and never stands on a freed record or a dead window. */
  lemma TurnKeeps(
    heap: Handlers, windows: Windows, first: Option<Ptr>, s: seq<Ptr>, next: nat, rest: seq<Frame>, f: Frame
  )
    requires Consistent(heap, windows, first, s, next, rest + [f]) && !f.inside
    ensures f.info.Some? ==>
      && f.info.value in heap
      && heap[f.info.value].data.win.Some? && heap[f.info.value].data.win.value in windows
    ensures Consistent(TurnHeap(heap, windows, f), windows, first, s, next, rest + TurnFrames(heap, windows, f))
  {
    hide Linked, RefsRight, NewestFirst, WindowsLive, FramesOk, FrameOk;
    FramesInit(heap, windows, s, next, rest, f);
    RefsIgnoreWalker(heap, s, rest, f);
    EntryLive(heap, windows, s, next, f);
    match TurnOf(heap, windows, f)
    case AtEnd =>
      assert rest + [] == rest;
    case Redirect =>
      assert rest + [] == rest;
    case Call =>
      EnterKeeps(heap, windows, first, s, next, rest, f);
    case Skip =>
      NextPosition(heap, windows, first, s, next, f, f.evType);
      RefsIgnoreWalker(heap, s, rest, f.(info := heap[f.info.value].next));
      FramesSnoc(heap, windows, s, next, rest, f.(info := heap[f.info.value].next));
  }

  /** After a callback returns, the walk can go on from its entry if the entry still has a window. */
  lemma ReturnKeeps(
    heap: Handlers, windows: Windows, first: Option<Ptr>, s: seq<Ptr>, next: nat, rest: seq<Frame>, f: Frame,
    evType: int
  )
    requires Consistent(heap, windows, first, s, next, rest + [f]) && f.inside && f.info.Some? && f.info.value in heap
    ensures var p := f.info.value; var h := Decref(heap, p);
            && Consistent(h, windows, first, s, next, rest)
            && (heap[p].data.win.Some? ==>
                  Consistent(h, windows, first, s, next,
                             rest + [f.(evType := evType, inside := false, info := heap[p].next)]))
  {
    var p := f.info.value;
    LeaveCallback(heap, windows, first, s, next, rest, f);
    FramesInit(heap, windows, s, next, rest, f);
    if heap[p].data.win.Some? {
      var h, g := Decref(heap, p), f.(evType := evType, inside := false, info := heap[p].next);
      DecrefKeepsFrame(heap, windows, s, next, p, f);
      NextPosition(h, windows, first, s, next, f, evType);
      RefsIgnoreWalker(h, s, rest, g);
      FramesSnoc(h, windows, s, next, rest, g);
    }
  }

  // ----- destroying a window

  lemma SweepStart(h0: Handlers, first: Option<Ptr>, s0: seq<Ptr>, next: nat, w: Ptr)
    requires Linked(h0, first, s0) && NewestFirst(h0, s0, next)
    ensures Sweep(h0, h0, first, s0, next, s0, 0, w)
  {
  }

  lemma DropEntry(h: Handlers, p: Ptr, q: Ptr)
    requires p in h && q in h && h[p].prev != Some(p) && h[p].next != Some(p)
    requires h[p].prev.Some? ==> h[p].prev != h[p].next && h[p].prev.value in h
    requires h[p].next.Some? ==> h[p].next.value in h
    ensures var d := Drop(h, p);
            && d.Keys == (if h[p].data.refcount == 1 then h.Keys - {p} else h.Keys)
            && q in Unlink(h, p)
            && (q in d ==> SameButLinks(if q == p then Swept(h[p]) else h[q], d[q]))
            && (q in d && q != p ==> d[q] == Unlink(h, p)[q])
  {
    UnlinkAt(h, p, p);
    UnlinkAt(h, p, q);
  }

  lemma DropLinks(h: Handlers, first: Option<Ptr>, s: seq<Ptr>, k: nat)
    requires Linked(h, first, s) && k < |s| && s[k] in h
    ensures Linked(Drop(h, s[k]), if k == 0 then NextOf(s, 0) else first, Without(s, k))
  {
    var p, t := s[k], Without(s, k);
    UnlinkLinks(h, first, s, k);
    NodeLinks(h, first, s, k);
    var u, d := Unlink(h, p), Drop(h, p);
    forall i | 0 <= i < |t|
      ensures t[i] in d && d[t[i]].prev == u[t[i]].prev && d[t[i]].next == u[t[i]].next
    {
      assert t[i] != p;
      DropEntry(h, p, t[i]);
    }
    LinkedAgree(u, d, if k == 0 then NextOf(s, 0) else first, t);
  }

  lemma SweepKeep(h0: Handlers, h: Handlers, first: Option<Ptr>, s: seq<Ptr>, next: nat, s0: seq<Ptr>, n: nat, w: Ptr)
    requires n < |s0| && Sweep(h0, h, first, s, next, s0, n, w)
    ensures s0[n] in h && h[s0[n]].data.win == h0[s0[n]].data.win && h[s0[n]].next == HeadOf(s0[n + 1..])
    ensures h[s0[n]].prev != Some(s0[n]) && h[s0[n]].next != Some(s0[n])
    ensures (h[s0[n]].prev.Some? ==> h[s0[n]].prev.value in h) && (h[s0[n]].next.Some? ==> h[s0[n]].next.value in h)
    ensures h[s0[n]].data.win != Some(w) ==> Sweep(h0, h, first, s, next, s0, n + 1, w)
  {
    SweepAt(h0, h, first, s, next, s0, n, w);
    NodeLinks(h, first, s, |s| - (|s0| - n));
    hide Linked, NewestFirst, Survivors, Removed;
    KeepOne(h0, h, s, s0, n, w);
  }

  lemma KeepOne(h0: Handlers, h: Handlers, s: seq<Ptr>, s0: seq<Ptr>, n: nat, w: Ptr)
    requires n < |s0| && s0[n] in h0 && s0[n] in h && s0[n] !in s0[..n] && SameButLinks(h0[s0[n]], h[s0[n]])
    requires Survivors(h0, s, s0, n, w) && Removed(h0, h, s0[..n], w)
    ensures h0[s0[n]].data.win != Some(w) ==> Survivors(h0, s, s0, n + 1, w) && Removed(h0, h, s0[..n + 1], w)
  {
    assert s0[..n + 1] == s0[..n] + [s0[n]];
  }

  lemma DropOne(h0: Handlers, s: seq<Ptr>, k: nat, s0: seq<Ptr>, n: nat, w: Ptr)
    requires n < |s0| && k < |s| && s[k] == s0[n] && s0[n] in h0 && h0[s0[n]].data.win == Some(w)
    requires Distinct(s) && Survivors(h0, s, s0, n, w)
    ensures Survivors(h0, Without(s, k), s0, n + 1, w) && Without(s, k)[k..] == s[k + 1..]
  {
    WithoutMembers(s, k);
    assert s0[..n + 1] == s0[..n] + [s0[n]];
  }

  /** Where the sweep stands: entry n of the old list is entry k of the present one. */
  lemma SweepAt(h0: Handlers, h: Handlers, first: Option<Ptr>, s: seq<Ptr>, next: nat, s0: seq<Ptr>, n: nat, w: Ptr)
    requires n < |s0| && Sweep(h0, h, first, s, next, s0, n, w)
    ensures var k, p := |s| - (|s0| - n), s0[n];
            && 0 <= k < |s| && s[k] == p && s[k + 1..] == s0[n + 1..]
            && p !in s0[..n] && p in h0 && p in h && SameButLinks(h0[p], h[p])
  {
    var k, p := |s| - (|s0| - n), s0[n];
    assert s[k] == s[k..][0] == p;
    assert s[k + 1..] == s[k..][1..] == s0[n + 1..];
  }

  lemma SweepDrop(h0: Handlers, h: Handlers, first: Option<Ptr>, s: seq<Ptr>, next: nat, s0: seq<Ptr>, n: nat, w: Ptr)
    requires n < |s0| && Sweep(h0, h, first, s, next, s0, n, w) && s0[n] in h && h[s0[n]].data.win == Some(w)
    ensures var p, k := s0[n], |s| - (|s0| - n);
            && 0 <= k < |s|
            && Sweep(h0, Drop(h, p), if first == Some(p) then h[p].next else first, Without(s, k), next, s0, n + 1, w)
  {
    hide Linked, Removed, Drop, NewestFirst, Survivors, Distinct, Without;
    SweepAt(h0, h, first, s, next, s0, n, w);
    var k, p := |s| - (|s0| - n), s0[n];
    NodeLinks(h, first, s, k);
    DropLinks(h, first, s, k);
    DropOrder(h, first, s, next, k);
    DropRemoved(h0, h, s0[..n], p, w);
    DropOne(h0, s, k, s0, n, w);
    assert s0[..n + 1] == s0[..n] + [p];
  }

  lemma DropOrder(h: Handlers, first: Option<Ptr>, s: seq<Ptr>, next: nat, k: nat)
    requires Linked(h, first, s) && NewestFirst(h, s, next) && k < |s| && s[k] in h
    ensures forall i :: 0 <= i < |s| - 1 ==> Without(s, k)[i] in Drop(h, s[k])
    ensures NewestFirst(Drop(h, s[k]), Without(s, k), next)
  {
    var p, t, d := s[k], Without(s, k), Drop(h, s[k]);
    NodeLinks(h, first, s, k);
    forall i | 0 <= i < |t| ensures t[i] in d && t[i] in h && d[t[i]].data.serial == h[t[i]].data.serial {
      assert t[i] != p;
      DropEntry(h, p, t[i]);
    }
    forall q | q in d ensures q in h && d[q].data.serial == h[q].data.serial {
      DropEntry(h, p, p);
      DropEntry(h, p, q);
    }
    NewestFirstAgree(h, d, t, next);
  }

  lemma DropRemoved(h0: Handlers, h: Handlers, done: seq<Ptr>, p: Ptr, w: Ptr)
    requires Removed(h0, h, done, w) && p in h && p in h0 && p !in done && h0[p].data.win == Some(w)
    requires h[p].prev != Some(p) && h[p].next != Some(p)
    requires h[p].prev.Some? ==> h[p].prev != h[p].next && h[p].prev.value in h
    requires h[p].next.Some? ==> h[p].next.value in h
    ensures Removed(h0, Drop(h, p), done + [p], w)
  {
    var d := Drop(h, p);
    DropEntry(h, p, p);
    forall q | q in h0
      ensures if q in done + [p] && h0[q].data.win == Some(w) then
           (q in d <==> h0[q].data.refcount != 1) && (q in d ==> SameButLinks(Swept(h0[q]), d[q]))
         else q in d && SameButLinks(h0[q], d[q])
    {
      if q in h { DropEntry(h, p, q); }
    }
  }

  lemma SweepDone(
    h0: Handlers, h: Handlers, windows: Windows, first0: Option<Ptr>, first: Option<Ptr>,
    s: seq<Ptr>, next: nat, s0: seq<Ptr>, w: Ptr, frames: seq<Frame>
  )
    requires Consistent(h0, windows, first0, s0, next, frames) && Sweep(h0, h, first, s, next, s0, |s0|, w)
    requires frames == [] || frames[|frames| - 1].inside
    ensures Consistent(h, windows - {w}, first, s, next, frames) && Removed(h0, h, s0, w)
    ensures forall p :: p in s <==> p in s0 && p in h0 && h0[p].data.win != Some(w)
  {
    hide Linked, NewestFirst, Removed, RefsRight, WindowsLive, Survivors;
    assert s0[..|s0|] == s0;
    SweptRecords(h0, h, windows, s0, s, w, frames);
    forall i | 0 <= i < |frames|
      ensures FrameOk(h, windows - {w}, s, next, frames[i])
    {
      assert FrameOk(h0, windows, s0, next, frames[i]);
      FrameStays(h0, h, windows, s0, next, w, frames, i);
      SweptFrame(h0, h, windows, s0, s, next, w, frames[i]);
    }
  }

  /** The record an activation stands in is not freed by the sweep. */
  lemma FrameStays(
    h0: Handlers, h: Handlers, windows: Windows, s0: seq<Ptr>, next: nat, w: Ptr, frames: seq<Frame>, i: nat
  )
    requires RefsRight(h0, s0, frames) && Removed(h0, h, s0, w)
    requires i < |frames| && frames[i].inside && FrameOk(h0, windows, s0, next, frames[i])
    ensures frames[i].info.Some? && frames[i].info.value in h0 && frames[i].info.value in h
  {
    InsidePositive(frames, i);
  }

  lemma SweptRecords(h0: Handlers, h: Handlers, windows: Windows, s0: seq<Ptr>, s: seq<Ptr>, w: Ptr, frames: seq<Frame>)
    requires RefsRight(h0, s0, frames) && WindowsLive(h0, windows, s0) && Removed(h0, h, s0, w)
    requires Survivors(h0, s, s0, |s0|, w) && forall i :: 0 <= i < |s0| ==> s0[i] in h0
    ensures RefsRight(h, s, frames) && WindowsLive(h, windows - {w}, s)
    ensures forall p :: p in s <==> p in s0 && p in h0 && h0[p].data.win != Some(w)
  {
    assert s0[..|s0|] == s0;
    forall p ensures p in s <==> p in s0 && p in h0 && h0[p].data.win != Some(w) {
      if p in s0 { var i :| 0 <= i < |s0| && s0[i] == p; }
    }
  }

  lemma SweptFrame(h0: Handlers, h: Handlers, windows: Windows, s0: seq<Ptr>, s: seq<Ptr>, next: nat, w: Ptr, f: Frame)
    requires FrameOk(h0, windows, s0, next, f) && Removed(h0, h, s0, w) && f.inside
    requires forall p :: p in s <==> p in s0 && p in h0 && h0[p].data.win != Some(w)
    requires f.info.Some? && f.info.value in h0 && f.info.value in h
    ensures FrameOk(h, windows - {w}, s, next, f)
  {
    assert At(h, f) == At(h0, f);
    forall q | q in s && q in h && Matches(h, windows - {w}, f, q) && At(h, f) < h[q].data.serial < f.born
      ensures h[q].data.serial in f.calls
    {
      assert SameButLinks(h0[q], h[q]);
      assert Matches(h0, windows, f, q);
    }
  }

  // ----- what the invariant says about a whole run

  /** No leak: when no activation is left, the allocated records are the linked ones, each with one reference. */
  lemma NoLeak(heap: Handlers, windows: Windows, first: Option<Ptr>, s: seq<Ptr>, next: nat)
    requires Consistent(heap, windows, first, s, next, [])
    ensures forall p :: p in heap <==> p in s
    ensures forall p :: p in heap ==>
      heap[p].data.refcount == 1 && heap[p].data.win.Some? && heap[p].data.win.value in windows
  {
    hide NewestFirst, FramesOk;
    forall p | p in s ensures p in heap {
      var i :| 0 <= i < |s| && s[i] == p;
    }
  }

  lemma {:induction false} DecreasingShort(calls: seq<nat>, bound: nat)
    requires Decreasing(calls) && forall c :: c in calls ==> c < bound
    ensures |calls| <= bound
  {
    if calls != [] {
      var rest := calls[1..];
      assert forall c :: c in rest ==> c < calls[0];
      assert calls[0] in calls;
      DecreasingShort(rest, calls[0]);
    }
  }

  /**
   Every dispatch makes finitely many calls, whatever its callbacks do: no
   entry twice, none pushed after it began.
   */
  lemma DispatchBounded(
    heap: Handlers, windows: Windows, first: Option<Ptr>, s: seq<Ptr>, next: nat, frames: seq<Frame>, i: nat
  )
    requires Consistent(heap, windows, first, s, next, frames) && i < |frames|
    ensures Decreasing(frames[i].calls) && |frames[i].calls| <= frames[i].born
    ensures forall c :: c in frames[i].calls ==> c < frames[i].born
  {
    assert FrameOk(heap, windows, s, next, frames[i]);
    DecreasingShort(frames[i].calls, frames[i].born);
  }

  /**
   A dispatch calls handlers of the window it is for only, and only in the session it
   is for unless the event takes the focus away.
   */
  lemma CallsOwnWindow(
    heap: Handlers, windows: Windows, first: Option<Ptr>, s: seq<Ptr>, next: nat, frames: seq<Frame>, i: nat, k: nat
  )
    requires Consistent(heap, windows, first, s, next, frames) && i < |frames| && k < |frames[i].reasons|
    ensures var f := frames[i];
      && |f.reasons| == |f.calls|
      && f.reasons[k].id == f.target
      && (f.reasons[k].modalID == f.modal || f.reasons[k].evType == EVENT_FOCUS_OUT)
  {
    assert FrameOk(heap, windows, s, next, frames[i]);
  }

  /**
   A dispatch that runs off the end of the list has called every handler of its
   window and session that was there when it began and is there still.
   */
  lemma WalkIsComplete(
    heap: Handlers, windows: Windows, first: Option<Ptr>, s: seq<Ptr>, next: nat, rest: seq<Frame>, f: Frame, p: Ptr
  )
    requires Consistent(heap, windows, first, s, next, rest + [f]) && f.info == None
    requires p in s && Matches(heap, windows, f, p) && heap[p].data.serial < f.born
    ensures heap[p].data.serial in f.calls
  {
    FramesInit(heap, windows, s, next, rest, f);
  }
}
