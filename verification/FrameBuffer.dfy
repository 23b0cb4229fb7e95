/**
 The triple-buffer hand-off between the guest that publishes frames
 (src/frame_router/fb_guest.c) and the host that displays them
 (src/frame_router/fb_host.c), through the header of src/frame_router/shm_proto.h.
 Every load and store of a shared word, and every pixel row copied, is one step.
 */
module FrameBuffer {

  const BUFFERS: nat := 3
  const WRAP: nat := 0x1_0000_0000
  const INVALID: nat := 0xFFFF_FFFF      // FB_INVALID_INDEX, and the host's first last_seq

  type PixelRow = nat
  type Image = seq<PixelRow>

  /** The producer loop. */
  datatype Guest =
    | AtTop                                                  // about to load front_index
    | HasFront(front: nat)                                   // about to load host_reading_index
    | Drawing(back: nat, image: Image, row: nat)             // about to store pixel row `row`
    | Drawn(back: nat, image: Image)                         // about to increment frame_seq
    | Counted(back: nat, image: Image)                       // about to store front_index

  /** The consumer loop. */
  datatype Host =
    | Polling                                                // about to load frame_seq
    | Noticed                                                // about to load it again
    | HasSeq                                                 // about to load front_index
    | HasIndex(idx: nat, number: nat)                        // about to store host_reading_index
    | Copying(idx: nat, number: nat, copied: Image)          // about to load the next pixel row

  /** One displayed frame.  History: the publish that front_index named when it was
      loaded, and the true number of frame_seq increments when last_seq was loaded. */
  datatype Display = Display(image: Image, number: nat, seqSeen: nat)

  /** `images` and `owner` are history: the images published, number 0 being the
      initial contents of buffer 0, and the publish each buffer last received. */
  datatype State = State(
    buffers: seq<Image>, height: nat,
    frameSeq: nat, frontIndex: nat, readingIndex: nat,
    guest: Guest, host: Host, lastSeq: nat,
    increments: nat, seqSeen: nat, images: seq<Image>, displays: seq<Display>)

  datatype Action =
    | GuestMove(image: Image)    // `image` is what the capture yields if this step starts one
    | CaptureFails               // screen_capture_frame gives up part way
    | HostMove

  function Init(initial: seq<Image>, height: nat): State
    requires |initial| == BUFFERS && forall b :: 0 <= b < BUFFERS ==> |initial[b]| == height
  {
    State(initial, height, 0, 0, INVALID, AtTop, Polling, INVALID, 0, 0, [initial[0]], [])
  }

  predicate Shaped(s: State) {
    && |s.buffers| == BUFFERS
    && (forall b :: 0 <= b < BUFFERS ==> |s.buffers[b]| == s.height)
    && s.frontIndex < BUFFERS
    && |s.images| > 0
    && (s.guest.Drawing? ==> s.guest.back < BUFFERS && s.guest.row <= s.height == |s.guest.image|)
    && (s.guest.Drawn? || s.guest.Counted? ==> s.guest.back < BUFFERS && |s.guest.image| == s.height)
    && (s.host.HasIndex? || s.host.Copying? ==> s.host.idx < BUFFERS)
    && (s.host.Copying? ==> |s.host.copied| <= s.height)
  }

  /** The slot search of the producer loop: the first index that is neither. */
  function FirstFree(front: nat, reading: nat, i: nat): nat
    requires i <= BUFFERS
    decreases BUFFERS - i
  {
    if i == BUFFERS then INVALID
    else if i != front && i != reading then i
    else FirstFree(front, reading, i + 1)
  }

  function MoveGuest(s: State, image: Image): (t: State)
    requires Shaped(s)
    ensures Shaped(t)
  {
    match s.guest
    case AtTop => s.(guest := HasFront(s.frontIndex))
    case HasFront(front) =>
      var back := FirstFree(front, s.readingIndex, 0);
      if back < BUFFERS && |image| == s.height then s.(guest := Drawing(back, image, 0))
      else s.(guest := AtTop)
    case Drawing(back, img, row) =>
      if row < s.height then
        s.(buffers := s.buffers[back := s.buffers[back][row := img[row]]], guest := Drawing(back, img, row + 1))
      else s.(guest := Drawn(back, img))
    case Drawn(back, img) =>
      s.(frameSeq := (s.frameSeq + 1) % WRAP, increments := s.increments + 1, guest := Counted(back, img))
    case Counted(back, img) =>
      s.(frontIndex := back, images := s.images + [img], guest := AtTop)
  }

  function MoveHost(s: State): (t: State)
    requires Shaped(s)
    ensures Shaped(t)
  {
    match s.host
    case Polling => if s.frameSeq != s.lastSeq then s.(host := Noticed) else s
    case Noticed => s.(lastSeq := s.frameSeq, seqSeen := s.increments, host := HasSeq)
    case HasSeq => s.(host := HasIndex(s.frontIndex, |s.images| - 1))
    case HasIndex(idx, number) => s.(readingIndex := idx, host := Copying(idx, number, []))
    case Copying(idx, number, copied) =>
      if |copied| < s.height then
        s.(host := Copying(idx, number, copied + [s.buffers[idx][|copied|]]))
      else
        s.(readingIndex := INVALID, displays := s.displays + [Display(copied, number, s.seqSeen)], host := Polling)
  }

  function Step(s: State, a: Action): (t: State)
    requires Shaped(s)
    ensures Shaped(t)
  {
    match a
    case GuestMove(image) => MoveGuest(s, image)
    case CaptureFails => if s.guest.Drawing? then s.(guest := AtTop) else s
    case HostMove => MoveHost(s)
  }

  function Exec(s: State, run: seq<Action>): (t: State)
    requires Shaped(s)
    ensures Shaped(t)
    decreases |run|
  {
    if run == [] then s else Exec(Step(s, run[0]), run[1..])
  }

  // ---- the claim --------------------------------------------------------------

  /** The guest, having loaded front_index and about to load host_reading_index, will pick
      the very buffer the host has settled on without having claimed it yet. */
  predicate Steals(s: State) {
    s.guest.HasFront? && s.host.HasIndex? && s.host.idx == (if s.guest.front == 0 then 1 else 0)
  }

  /** The run never has the guest take that step. */
  ghost predicate NeverSteals(s: State, run: seq<Action>)
    requires Shaped(s)
    decreases |run|
  {
    run != [] ==>
      && !(run[0].GuestMove? && |run[0].image| == s.height && Steals(s))
      && NeverSteals(Step(s, run[0]), run[1..])
  }

  // ---- the invariant --------------------------------------------------------

  /** The guest may be about to write, or be writing, buffer b. */
  predicate Targets(g: Guest, b: nat) {
    (g.Drawing? || g.Drawn? || g.Counted?) && g.back == b
  }

  ghost predicate GuestGood(s: State) {
    match s.guest
    case AtTop => true
    case HasFront(front) => front == s.frontIndex
    case Drawing(back, image, row) =>
      && back != s.frontIndex
      && back < |s.buffers|
      && row <= |s.buffers[back]| == |image|
      && s.buffers[back][..row] == image[..row]
    case Drawn(back, image) => back != s.frontIndex && back < |s.buffers| && s.buffers[back] == image
    case Counted(back, image) => back != s.frontIndex && back < |s.buffers| && s.buffers[back] == image
  }

  ghost predicate HostGood(s: State) {
    match s.host
    case Polling => s.readingIndex == INVALID
    case Noticed => s.readingIndex == INVALID
    case HasSeq => s.readingIndex == INVALID && s.seqSeen <= s.increments
    case HasIndex(idx, number) =>
      && idx < |s.buffers|
      && s.readingIndex == INVALID
      && number < |s.images|
      && s.buffers[idx] == s.images[number]
      && !Targets(s.guest, idx)
      && s.seqSeen <= number + 1
    case Copying(idx, number, copied) =>
      && idx < |s.buffers|
      && s.readingIndex == idx
      && number < |s.images|
      && s.buffers[idx] == s.images[number]
      && !Targets(s.guest, idx)
      && |copied| <= |s.buffers[idx]|
      && copied == s.buffers[idx][..|copied|]
      && s.seqSeen <= number + 1
  }

  /** A displayed frame is one whole publish, at most one older than the count seen. */
  ghost predicate DisplayGood(d: Display, images: seq<Image>) {
    && d.number < |images|
    && d.image == images[d.number]
    && d.seqSeen <= d.number + 1
  }

  ghost predicate Inv(s: State) {
    && Shaped(s)
    && s.buffers[s.frontIndex] == s.images[|s.images| - 1]
    && s.increments == |s.images| - 1 + (if s.guest.Counted? then 1 else 0)
    && s.frameSeq == s.increments % WRAP
    && GuestGood(s)
    && HostGood(s)
    && (forall k :: 0 <= k < |s.displays| ==> DisplayGood(s.displays[k], s.images))
    && (forall k, m :: 0 <= k < m < |s.displays| ==> s.displays[k].number <= s.displays[m].number)
    && (forall k :: 0 <= k < |s.displays| ==>
          s.displays[k].number <= if s.host.HasIndex? || s.host.Copying? then s.host.number else |s.images| - 1)
  }

  lemma InitInv(initial: seq<Image>, height: nat)
    requires |initial| == BUFFERS && forall b :: 0 <= b < BUFFERS ==> |initial[b]| == height
    ensures Inv(Init(initial, height))
  {
  }

  /** With three buffers and two of them spoken for, the search always succeeds. */
  lemma FreeSlotExists(front: nat, reading: nat)
    ensures var back := FirstFree(front, reading, 0);
            back < BUFFERS && back != front && back != reading
  {
    assert FirstFree(front, reading, 3) == INVALID;
    assert FirstFree(front, reading, 2) == if front != 2 && reading != 2 then 2 else INVALID;
    assert FirstFree(front, reading, 1) == if front != 1 && reading != 1 then 1 else FirstFree(front, reading, 2);
    assert FirstFree(front, reading, 0) == if front != 0 && reading != 0 then 0 else FirstFree(front, reading, 1);
  }

  lemma GuestDrawsInv(s: State, image: Image)
    requires Inv(s) && s.guest.Drawing?
    ensures Inv(MoveGuest(s, image))
  {
    var t := MoveGuest(s, image);
    var back, img, row := s.guest.back, s.guest.image, s.guest.row;
    if row < s.height {
      assert t.buffers[back][..row + 1] == s.buffers[back][..row] + [img[row]];
      assert img[..row + 1] == img[..row] + [img[row]];
    } else {
      assert s.buffers[back] == s.buffers[back][..row] == img[..row] == img;
    }
  }

  lemma GuestChoosesInv(s: State, image: Image)
    requires Inv(s) && (s.guest.AtTop? || s.guest.HasFront?)
    requires !(|image| == s.height && Steals(s))
    ensures Inv(MoveGuest(s, image))
  {
    if s.guest.HasFront? {
      FreeSlotExists(s.guest.front, s.readingIndex);
    }
  }

  lemma GuestPublishesInv(s: State, image: Image)
    requires Inv(s) && (s.guest.Drawn? || s.guest.Counted?)
    ensures Inv(MoveGuest(s, image))
  {
    Increment(s.increments);
  }

  lemma GuestInv(s: State, image: Image)
    requires Inv(s)
    requires !(|image| == s.height && Steals(s))
    ensures Inv(MoveGuest(s, image))
  {
    match s.guest
    case Drawing(_, _, _) => GuestDrawsInv(s, image);
    case Drawn(_, _) => GuestPublishesInv(s, image);
    case Counted(_, _) => GuestPublishesInv(s, image);
    case _ => GuestChoosesInv(s, image);
  }

  lemma Increment(n: nat)
    ensures (n % WRAP + 1) % WRAP == (n + 1) % WRAP
  {
  }

  lemma HostCopiesInv(s: State)
    requires Inv(s) && s.host.Copying?
    ensures Inv(MoveHost(s))
  {
    hide GuestGood;
    var n := |s.host.copied|;
    var b := s.buffers[s.host.idx];
    GuestGoodKept(s, MoveHost(s));
    if n < s.height {
      assert b[..n + 1] == b[..n] + [b[n]];
    } else {
      assert b == b[..n];
    }
  }

  /** The guest's part of the invariant does not look at the host. */
  lemma GuestGoodKept(s: State, t: State)
    requires GuestGood(s) && t.guest == s.guest && t.buffers == s.buffers && t.frontIndex == s.frontIndex
    ensures GuestGood(t)
  {
  }

  lemma HostInv(s: State)
    requires Inv(s)
    ensures Inv(MoveHost(s))
  {
    if s.host.Copying? {
      HostCopiesInv(s);
    } else {
      HostClaimsInv(s);
    }
  }

  lemma HostClaimsInv(s: State)
    requires Inv(s) && !s.host.Copying?
    ensures Inv(MoveHost(s))
  {
    assert s.host.HasSeq? ==> !Targets(s.guest, s.frontIndex);
    hide GuestGood;
    GuestGoodKept(s, MoveHost(s));
  }

  lemma StepInv(s: State, a: Action)
    requires Inv(s)
    requires !(a.GuestMove? && |a.image| == s.height && Steals(s))
    ensures Inv(Step(s, a))
  {
    match a
    case GuestMove(image) => GuestInv(s, image);
    case CaptureFails =>
    case HostMove => HostInv(s);
  }

  lemma {:induction false} ExecInv(s: State, run: seq<Action>)
    requires Inv(s) && NeverSteals(s, run)
    ensures Inv(Exec(s, run))
    decreases |run|
  {
    if run != [] {
      StepInv(s, run[0]);
      ExecInv(Step(s, run[0]), run[1..]);
    }
  }

  // ---- the theorems ---------------------------------------------------------

  /** The guest is storing into the buffer the host is copying. */
  predicate Collision(s: State) {
    s.guest.Drawing? && s.host.Copying? && s.guest.back == s.host.idx
  }

  /** As long as the guest never steals a buffer, it never writes the buffer being copied,
      every displayed frame is one whole publish, publish numbers never go down, and each
      is at most one behind the frame count the host had loaded. */
  lemma HandOffIsSafe(initial: seq<Image>, height: nat, run: seq<Action>)
    requires |initial| == BUFFERS && forall b :: 0 <= b < BUFFERS ==> |initial[b]| == height
    requires NeverSteals(Init(initial, height), run)
    ensures var s := Exec(Init(initial, height), run);
            && !Collision(s)
            && (forall k :: 0 <= k < |s.displays| ==> DisplayGood(s.displays[k], s.images))
            && (forall k, m :: 0 <= k < m < |s.displays| ==> s.displays[k].number <= s.displays[m].number)
  {
    InitInv(initial, height);
    ExecInv(Init(initial, height), run);
  }

  /** Nowhere along the run is the host copying a buffer being drawn, nor would it be after
      its next step. */
  ghost predicate Exclusive(s: State, run: seq<Action>)
    requires Shaped(s)
    decreases |run|
  {
    && !Collision(s)
    && !Collision(MoveHost(s))
    && (run != [] ==> Exclusive(Step(s, run[0]), run[1..]))
  }

  /** The guest's step of choice meets the host's next store exactly if it is a theft. */
  lemma StealCollides(s: State, image: Image)
    requires Inv(s) && s.guest.HasFront? && s.host.HasIndex? && |image| == s.height
    ensures Collision(MoveHost(MoveGuest(s, image))) <==> Steals(s)
  {
    FirstFreeFrom(s.guest.front, s.readingIndex);
  }

  lemma NoCollisionYet(s: State)
    requires Inv(s)
    ensures !Collision(s) && !Collision(MoveHost(s))
  {
    HostInv(s);
  }

  lemma {:induction false} ExclusiveExactly(s: State, run: seq<Action>)
    requires Inv(s)
    ensures Exclusive(s, run) <==> NeverSteals(s, run)
    decreases |run|
  {
    NoCollisionYet(s);
    if run != [] {
      var a, t := run[0], Step(s, run[0]);
      if a.GuestMove? && |a.image| == s.height && Steals(s) {
        StealCollides(s, a.image);
        assert !Exclusive(t, run[1..]);
      } else {
        StepInv(s, a);
        ExclusiveExactly(t, run[1..]);
      }
    }
  }

  /** In every interleaving: the guest and the host are kept out of one buffer, now and at the
      host's next step, all along the run, if and only if the guest never steals. */
  lemma HandOffExcludesExactly(initial: seq<Image>, height: nat, run: seq<Action>)
    requires |initial| == BUFFERS && forall b :: 0 <= b < BUFFERS ==> |initial[b]| == height
    ensures Exclusive(Init(initial, height), run) <==> NeverSteals(Init(initial, height), run)
  {
    InitInv(initial, height);
    ExclusiveExactly(Init(initial, height), run);
  }

  /** The guest's "no buffer" branch is never taken, claims overtaken or not. */
  lemma GuestAlwaysFindsABuffer(s: State, image: Image)
    requires Shaped(s) && s.guest.HasFront? && |image| == s.height
    ensures var t := MoveGuest(s, image);
            t.guest.Drawing? && t.guest.back != s.guest.front && t.guest.back != s.readingIndex
  {
    FreeSlotExists(s.guest.front, s.readingIndex);
  }

  // ---- claims that are quick enough -------------------------------------------

  /** Inside the host's claim, between its load of front_index and its store of
      host_reading_index, `moved` says whether the guest has stored a new front_index. */
  datatype Window = Closed | Open(moved: bool)

  function Watch(w: Window, s: State, a: Action): Window
    requires Shaped(s)
  {
    match a
    case HostMove => if s.host.HasSeq? then Open(false) else if s.host.HasIndex? then Closed else w
    case GuestMove(_) => if w.Open? && s.guest.Counted? then Open(true) else w
    case CaptureFails => w
  }

  /** The run never has the guest store front_index and then load host_reading_index
      inside one claim of the host. */
  ghost predicate ClaimsAreQuick(s: State, w: Window, run: seq<Action>)
    requires Shaped(s)
    decreases |run|
  {
    run != [] ==>
      && !(w.Open? && w.moved && run[0].GuestMove? && s.guest.HasFront?)
      && ClaimsAreQuick(Step(s, run[0]), Watch(w, s, run[0]), run[1..])
  }

  /** Until the guest publishes, the host has settled on the front buffer, which no guest picks. */
  ghost predicate Watched(s: State, w: Window) {
    s.host.HasIndex? ==> w.Open? && (!w.moved ==> s.host.idx == s.frontIndex)
  }

  lemma {:induction false} QuickClaimsAreSafe(s: State, w: Window, run: seq<Action>)
    requires Inv(s) && Watched(s, w) && ClaimsAreQuick(s, w, run)
    ensures NeverSteals(s, run)
    decreases |run|
  {
    if run != [] {
      var a := run[0];
      assert !(a.GuestMove? && Steals(s));
      StepInv(s, a);
      StaysWatched(s, w, a);
      QuickClaimsAreSafe(Step(s, a), Watch(w, s, a), run[1..]);
    }
  }

  lemma StaysWatched(s: State, w: Window, a: Action)
    requires Inv(s) && Watched(s, w)
    ensures Watched(Step(s, a), Watch(w, s, a))
  {
  }

  /** A claim that no publish followed by a load of host_reading_index overtakes is no theft. */
  lemma QuickClaimsNeverSteal(initial: seq<Image>, height: nat, run: seq<Action>)
    requires |initial| == BUFFERS && forall b :: 0 <= b < BUFFERS ==> |initial[b]| == height
    requires ClaimsAreQuick(Init(initial, height), Closed, run)
    ensures NeverSteals(Init(initial, height), run)
  {
    InitInv(initial, height);
    QuickClaimsAreSafe(Init(initial, height), Closed, run);
  }

  // ---- whole turns, uninterrupted -------------------------------------------

  function FinishDrawing(s: State): (t: State)
    requires Shaped(s) && s.guest.Drawing?
    ensures Shaped(t) && t.guest.AtTop?
    decreases s.height - s.guest.row
  {
    var next := MoveGuest(s, []);
    if s.guest.row < s.height then FinishDrawing(next) else MoveGuest(MoveGuest(next, []), [])
  }

  /** One turn of the producer loop, run to its end. */
  function RunGuest(s: State, image: Image): (t: State)
    requires Shaped(s) && s.guest.AtTop? && |image| == s.height
    ensures Shaped(t) && t.guest.AtTop?
  {
    var chosen := MoveGuest(MoveGuest(s, image), image);
    FreeSlotExists(s.frontIndex, s.readingIndex);
    FinishDrawing(chosen)
  }

  function FinishCopy(s: State): (t: State)
    requires Shaped(s) && s.host.Copying?
    ensures Shaped(t) && t.host.Polling?
    decreases s.height - |s.host.copied|
  {
    if |s.host.copied| < s.height then FinishCopy(MoveHost(s)) else MoveHost(s)
  }

  /** One turn of the consumer loop, run to its end. */
  function RunHost(s: State): (t: State)
    requires Shaped(s) && s.host.Polling?
    ensures Shaped(t) && t.host.Polling?
  {
    if s.frameSeq == s.lastSeq then s
    else FinishCopy(MoveHost(MoveHost(MoveHost(MoveHost(s)))))
  }

  lemma {:induction false} FinishDrawingIs(s: State)
    requires Shaped(s) && s.guest.Drawing?
    requires s.buffers[s.guest.back][..s.guest.row] == s.guest.image[..s.guest.row]
    ensures FinishDrawing(s)
            == s.(buffers := s.buffers[s.guest.back := s.guest.image], guest := AtTop,
                  frameSeq := (s.frameSeq + 1) % WRAP, increments := s.increments + 1,
                  frontIndex := s.guest.back, images := s.images + [s.guest.image])
    decreases s.height - s.guest.row
  {
    var b, row := s.buffers[s.guest.back], s.guest.row;
    if row < s.height {
      var next := MoveGuest(s, []);
      assert next.buffers[s.guest.back][..row + 1] == b[..row] + [s.guest.image[row]] == s.guest.image[..row + 1];
      FinishDrawingIs(next);
      assert next.buffers[s.guest.back := s.guest.image] == s.buffers[s.guest.back := s.guest.image];
    } else {
      assert b == b[..row] == s.guest.image;
      assert s.buffers[s.guest.back := s.guest.image] == s.buffers;
    }
  }

  lemma {:induction false} FinishCopyIs(s: State)
    requires Shaped(s) && s.host.Copying?
    requires s.host.copied == s.buffers[s.host.idx][..|s.host.copied|]
    ensures FinishCopy(s)
            == s.(readingIndex := INVALID, host := Polling,
                  displays := s.displays + [Display(s.buffers[s.host.idx], s.host.number, s.seqSeen)])
    decreases s.height - |s.host.copied|
  {
    var b, n := s.buffers[s.host.idx], |s.host.copied|;
    if n < s.height {
      assert b[..n + 1] == b[..n] + [b[n]];
      FinishCopyIs(MoveHost(s));
    } else {
      assert b == b[..n];
    }
  }

  lemma RunGuestIs(s: State, image: Image)
    requires Shaped(s) && s.guest.AtTop? && |image| == s.height
    ensures var back := FirstFree(s.frontIndex, s.readingIndex, 0);
            && back < BUFFERS
            && RunGuest(s, image)
               == s.(buffers := s.buffers[back := image], frameSeq := (s.frameSeq + 1) % WRAP,
                     increments := s.increments + 1, frontIndex := back, images := s.images + [image])
  {
    FreeSlotExists(s.frontIndex, s.readingIndex);
    FinishDrawingIs(s.(guest := Drawing(FirstFree(s.frontIndex, s.readingIndex, 0), image, 0)));
  }

  /** A turn that nothing interrupts keeps the invariant. */
  lemma TurnKeepsInv(s: State, image: Image)
    requires Inv(s) && s.guest.AtTop? && s.host.Polling? && |image| == s.height
    ensures Shaped(s) && Inv(RunGuest(s, image))
  {
    RunGuestIs(s, image);
    FreeSlotExists(s.frontIndex, s.readingIndex);
    Increment(s.increments);
  }

  /** A capture that fails publishes nothing, whatever it has drawn; the next turn draws its own image
      in full and publishes that. */
  lemma FailedCaptureIsDropped(s: State, image: Image)
    requires Shaped(s) && s.guest.Drawing? && |image| == s.height
    ensures var failed := Step(s, CaptureFails);
            && failed.guest.AtTop?
            && failed.frameSeq == s.frameSeq && failed.frontIndex == s.frontIndex && failed.images == s.images
            && var t := RunGuest(failed, image);
               && t.frontIndex != s.frontIndex && t.buffers[t.frontIndex] == image
               && t.images == s.images + [image] && t.frameSeq == (s.frameSeq + 1) % 0x1_0000_0000
  {
    var failed := Step(s, CaptureFails);
    RunGuestIs(failed, image);
    FreeSlotExists(failed.frontIndex, failed.readingIndex);
  }

  lemma RunHostIs(s: State)
    requires Shaped(s) && s.host.Polling?
    ensures RunHost(s)
            == if s.frameSeq == s.lastSeq then s
               else s.(lastSeq := s.frameSeq, seqSeen := s.increments, readingIndex := INVALID,
                       displays := s.displays
                                   + [Display(s.buffers[s.frontIndex], |s.images| - 1, s.increments)])
  {
    if s.frameSeq != s.lastSeq {
      var claimed := s.(lastSeq := s.frameSeq, seqSeen := s.increments, readingIndex := s.frontIndex,
                        host := Copying(s.frontIndex, |s.images| - 1, []));
      assert MoveHost(MoveHost(MoveHost(MoveHost(s)))) == claimed;
      FinishCopyIs(claimed);
    }
  }

  lemma HostTurnKeepsInv(s: State)
    requires Inv(s) && s.guest.AtTop? && s.host.Polling?
    ensures Shaped(s) && Inv(RunHost(s))
    ensures s.buffers[s.frontIndex] == s.images[|s.images| - 1]
  {
    RunHostIs(s);
  }

  /** The header, the buffers and the host's last_seq, between two turns. */
  class FrameRegion {
    const height: nat
    var buffers: seq<Image>
    var frameSeq: nat
    var frontIndex: nat
    var readingIndex: nat
    var lastSeq: nat
    ghost var increments: nat
    ghost var seqSeen: nat
    ghost var images: seq<Image>
    ghost var displays: seq<Display>

    /** The guest's header initialisation, and the host's first last_seq. */
    constructor (initial: seq<Image>, height: nat)
      requires |initial| == BUFFERS && forall b :: 0 <= b < BUFFERS ==> |initial[b]| == height
      ensures AsState() == Init(initial, height) && Valid()
      ensures frameSeq == frontIndex == 0 && readingIndex == 0xFFFF_FFFF && lastSeq == 0xFFFF_FFFF
      ensures images == [buffers[0]] && displays == []
    {
      this.height := height;
      buffers := initial;
      frameSeq, frontIndex, readingIndex, lastSeq := 0, 0, INVALID, INVALID;
      increments, seqSeen, images, displays := 0, 0, [initial[0]], [];
    }

    ghost function AsState(): State
      reads this
    {
      State(buffers, height, frameSeq, frontIndex, readingIndex, AtTop, Polling, lastSeq,
            increments, seqSeen, images, displays)
    }

    ghost predicate Valid()
      reads this
    {
      Inv(AsState())
    }

    /** The slot search. */
    method ChooseBuffer(front: nat, reading: nat) returns (backIndex: nat)
      ensures backIndex == FirstFree(front, reading, 0)
    {
      backIndex := INVALID;
      var i := 0;
      while i < BUFFERS
        invariant i <= BUFFERS && backIndex == INVALID
        invariant FirstFree(front, reading, 0) == FirstFree(front, reading, i)
      {
        if i != front && i != reading {
          return i;
        }
        i := i + 1;
      }
    }

    /** The capture: one pixel row after the other. */
    method Draw(backIndex: nat, image: Image)
      requires backIndex < |buffers| && |buffers[backIndex]| == |image| == height
      modifies `buffers
      ensures buffers == old(buffers)[backIndex := image]
    {
      var row := 0;
      while row < height
        invariant row <= height && |buffers| == |old(buffers)| && |buffers[backIndex]| == height
        invariant buffers == old(buffers)[backIndex := buffers[backIndex]]
        invariant buffers[backIndex][..row] == image[..row]
      {
        ghost var before := buffers[backIndex];
        buffers := buffers[backIndex := buffers[backIndex][row := image[row]]];
        assert buffers[backIndex][..row + 1] == before[..row] + [image[row]] == image[..row + 1];
        row := row + 1;
      }
      assert buffers[backIndex] == buffers[backIndex][..row] == image;
    }

    /** One turn of the guest: find a free buffer, draw it row by row, publish it. */
    method GuestTurn(image: Image)
      requires Valid() && |image| == height
      modifies this
      ensures Valid()
      ensures AsState() == RunGuest(old(AsState()), image)
      ensures buffers[frontIndex] == image && frontIndex != old(frontIndex) && images == old(images) + [image]
      ensures frameSeq == (old(frameSeq) + 1) % 0x1_0000_0000 && lastSeq == old(lastSeq)
    {
      ghost var s0 := AsState();
      TurnKeepsInv(s0, image);
      hide Inv;
      FreeSlotExists(frontIndex, readingIndex);
      var backIndex := ChooseBuffer(frontIndex, readingIndex);
      RunGuestIs(s0, image);
      Draw(backIndex, image);
      frameSeq := (frameSeq + 1) % WRAP;
      increments := increments + 1;
      frontIndex := backIndex;
      images := images + [image];
      assert AsState() == RunGuest(s0, image);
    }

    /** A host that has shown what there was shows the next frame published, once. */
    method PublishedIsShown(image: Image) returns (frame: Image)
      requires Valid() && |image| == height
      modifies this
      ensures Valid() && frame == image
    {
      var before, other := HostTurn();
      GuestTurn(image);
      var shown;
      shown, frame := HostTurn();
      assert shown;
      var again, none := HostTurn();
      assert !again;
    }

    /** One turn of the host: if frame_seq moved, claim the front buffer, copy it, release it. */
    method HostTurn() returns (shown: bool, frame: Image)
      requires Valid()
      modifies this
      ensures Valid()
      ensures AsState() == RunHost(old(AsState()))
      ensures shown <==> old(frameSeq != lastSeq)
      ensures shown ==> frame == images[|images| - 1]
      ensures lastSeq == frameSeq == old(frameSeq) && frontIndex == old(frontIndex) && images == old(images)
      ensures buffers == old(buffers)
      ensures readingIndex == if shown then 0xFFFF_FFFF else old(readingIndex)
    {
      shown, frame := false, [];
      ghost var s0 := AsState();
      HostTurnKeepsInv(s0);
      RunHostIs(s0);
      hide Inv;
      hide RunHost;
      if frameSeq != lastSeq {
        lastSeq := frameSeq;
        seqSeen := increments;
        var idx := frontIndex;
        readingIndex := idx;
        while |frame| < height
          invariant |frame| <= height && frame == buffers[idx][..|frame|]
        {
          frame := frame + [buffers[idx][|frame|]];
        }
        assert frame == buffers[idx];
        readingIndex := INVALID;
        displays := displays + [Display(frame, |images| - 1, seqSeen)];
        shown := true;
      }
      assert AsState() == RunHost(s0);
    }
  }

  // ---- without the condition --------------------------------------------------

  /** The overtaken claim: the host loads front_index 0; the guest publishes buffer 1 and
      picks buffer 0, still unclaimed; the host claims it and copies while the guest draws. */
  function OvertakenRun(): seq<Action> {
    var g := GuestMove([7]);
    [HostMove, HostMove, HostMove,    // load frame_seq twice, then front_index
     g, g, g, g, g, g,                // front, reading, draw, end of draw, frame_seq, front_index
     g, g,                            // front is 1 now, nothing claimed: take buffer 0
     HostMove]                        // store host_reading_index
  }

  lemma Unroll(s: State, a: Action, rest: seq<Action>)
    requires Shaped(s)
    ensures Exec(s, [a] + rest) == Exec(Step(s, a), rest)
    ensures NeverSteals(s, [a] + rest) ==> NeverSteals(Step(s, a), rest)
  {
    assert ([a] + rest)[1..] == rest;
  }

  /** The run goes through these states. */
  function Scene(buffers: seq<Image>, frameSeq: nat, front: nat, guest: Guest, host: Host, images: seq<Image>): State {
    State(buffers, 1, frameSeq, front, INVALID, guest, host, 0, frameSeq, 0, images, [])
  }

  lemma HostTakesIndex(rest: seq<Action>)
    ensures var s := Init([[0], [1], [2]], 1);
            var t := Scene([[0], [1], [2]], 0, 0, AtTop, HasIndex(0, 0), [[0]]);
            && Exec(s, [HostMove] + ([HostMove] + ([HostMove] + rest))) == Exec(t, rest)
            && (NeverSteals(s, [HostMove] + ([HostMove] + ([HostMove] + rest))) ==>
                  NeverSteals(t, rest))
  {
    hide Exec;
    hide NeverSteals;
    var s0 := Init([[0], [1], [2]], 1);
    Unroll(s0, HostMove, [HostMove] + ([HostMove] + rest));
    var s1 := Step(s0, HostMove);
    Unroll(s1, HostMove, [HostMove] + rest);
    Unroll(Step(s1, HostMove), HostMove, rest);
  }

  lemma GuestDraws(rest: seq<Action>)
    ensures var g := GuestMove([7]);
            var s := Scene([[0], [1], [2]], 0, 0, AtTop, HasIndex(0, 0), [[0]]);
            var t := Scene([[0], [7], [2]], 0, 0, Drawing(1, [7], 1), HasIndex(0, 0), [[0]]);
            && Exec(s, [g] + ([g] + ([g] + rest))) == Exec(t, rest)
            && (NeverSteals(s, [g] + ([g] + ([g] + rest))) ==> NeverSteals(t, rest))
  {
    hide Exec;
    hide NeverSteals;
    var g := GuestMove([7]);
    var s0 := Scene([[0], [1], [2]], 0, 0, AtTop, HasIndex(0, 0), [[0]]);
    Unroll(s0, g, [g] + ([g] + rest));
    var s1 := s0.(guest := HasFront(0));
    Unroll(s1, g, [g] + rest);
    FirstFreeFrom(0, INVALID);
    var s2 := s0.(guest := Drawing(1, [7], 0));
    assert Step(s1, g) == s2;
    Unroll(s2, g, rest);
    assert [1][0 := 7] == [7];
    assert [[0], [1], [2]][1 := [7]] == [[0], [7], [2]];
  }

  lemma GuestPublishes(rest: seq<Action>)
    ensures var g := GuestMove([7]);
            var s := Scene([[0], [7], [2]], 0, 0, Drawing(1, [7], 1), HasIndex(0, 0), [[0]]);
            var t := Scene([[0], [7], [2]], 1, 1, AtTop, HasIndex(0, 0), [[0], [7]]);
            && Exec(s, [g] + ([g] + ([g] + rest))) == Exec(t, rest)
            && (NeverSteals(s, [g] + ([g] + ([g] + rest))) ==> NeverSteals(t, rest))
  {
    hide Exec;
    hide NeverSteals;
    var g := GuestMove([7]);
    var s0 := Scene([[0], [7], [2]], 0, 0, Drawing(1, [7], 1), HasIndex(0, 0), [[0]]);
    Unroll(s0, g, [g] + ([g] + rest));
    var s1 := s0.(guest := Drawn(1, [7]));
    Unroll(s1, g, [g] + rest);
    Unroll(Step(s1, g), g, rest);
    assert [[0]] + [[7]] == [[0], [7]];
  }

  lemma GuestTakesClaimedBuffer()
    ensures var g := GuestMove([7]);
            var s := Scene([[0], [7], [2]], 1, 1, AtTop, HasIndex(0, 0), [[0], [7]]);
            && Collision(Exec(s, [g] + ([g] + ([HostMove] + []))))
            && !NeverSteals(s, [g] + ([g] + ([HostMove] + [])))
  {
    var g := GuestMove([7]);
    var s0 := Scene([[0], [7], [2]], 1, 1, AtTop, HasIndex(0, 0), [[0], [7]]);
    Unroll(s0, g, [g] + ([HostMove] + []));
    var s1 := s0.(guest := HasFront(1));
    Unroll(s1, g, [HostMove] + []);
    FirstFreeFrom(1, INVALID);
    Unroll(Step(s1, g), HostMove, []);
  }

  /** Without the condition exclusion fails, and this run is one the condition rules out. */
  lemma OvertakenClaimCollides()
    ensures Collision(Exec(Init([[0], [1], [2]], 1), OvertakenRun()))
    ensures !NeverSteals(Init([[0], [1], [2]], 1), OvertakenRun())
  {
    hide Exec;
    hide NeverSteals;
    hide Collision;
    var g := GuestMove([7]);
    var r3 := [g] + ([g] + ([HostMove] + []));
    var r2 := [g] + ([g] + ([g] + r3));
    var r1 := [g] + ([g] + ([g] + r2));
    assert OvertakenRun() == [HostMove] + ([HostMove] + ([HostMove] + r1));
    HostTakesIndex(r1);
    GuestDraws(r2);
    GuestPublishes(r3);
    GuestTakesClaimedBuffer();
  }

  lemma FirstFreeFrom(front: nat, reading: nat)
    requires front < BUFFERS && reading == INVALID
    ensures FirstFree(front, reading, 0) == if front == 0 then 1 else 0
  {
    assert FirstFree(front, reading, 1) == if front != 1 then 1 else FirstFree(front, reading, 2);
  }
}
