/** The application state of `src/app.rs` and its per-frame task reconciler.

    A task handle (a channel receiver plus a thread) is abstract: `H`. What one
    frame's non-blocking `try_recv` sees on each handle is a function
    `poll: H -> Poll<P>`. The response payload is a type parameter `P`, because
    the revisions disagree on it (a texture handle in app.rs, an `Image` record
    in image.rs). */
module App {

  import opened Wrappers

  /** The envelope a background unit sends. */
  datatype Response<P> = Image(payload: P) | Nothing

  /** What `try_recv` returns on one frame: a value, or one of the two `Err`
      kinds (nothing sent yet, or the sender is gone without sending). */
  datatype Poll<P> = Ready(response: Response<P>) | Empty | Disconnected

  /** The UI-owned state: images shown so far and the registry of live tasks.
      (The `f32` display width is not modelled.) */
  datatype Portfolio<P, H> = Portfolio(images: seq<P>, tasks: seq<H>)

  /** The state a fresh window starts with. */
  function Default<P, H>(): (p: Portfolio<P, H>)
    ensures |p.images| == 0 && |p.tasks| == 0
  {
    Portfolio([], [])
  }

  /** Clicking "Add Image": one new handle goes to the back of the registry;
      the images are not touched. */
  function AddImage<P, H>(p: Portfolio<P, H>, h: H): (r: Portfolio<P, H>)
    ensures r.images == p.images
    ensures |r.tasks| == |p.tasks| + 1 && r.tasks[..|p.tasks|] == p.tasks && r.tasks[|p.tasks|] == h
  {
    p.(tasks := p.tasks + [h])
  }

  // Reference definitions, stated per entry and independent of the retain pass.

  /** The handles a pass must keep: those with no value, in registry order. */
  function Pending<P, H>(tasks: seq<H>, poll: H -> Poll<P>): seq<H>
  {
    if tasks == [] then []
    else (if poll(tasks[0]).Ready? then [] else [tasks[0]]) + Pending(tasks[1..], poll)
  }

  /** A poll outcome that delivers an image. */
  predicate CarriesImage<P>(o: Poll<P>)
  {
    o.Ready? && o.response.Image?
  }

  /** The payloads of the `Ready(Image(_))` entries, in registry order. */
  function ReadyImages<P, H>(tasks: seq<H>, poll: H -> Poll<P>): seq<P>
  {
    if tasks == [] then []
    else
      var o := poll(tasks[0]);
      (if CarriesImage(o) then [o.response.payload] else []) + ReadyImages(tasks[1..], poll)
  }

  /** How many entries have a value this frame. */
  function CountReady<P, H>(tasks: seq<H>, poll: H -> Poll<P>): nat
  {
    if tasks == [] then 0
    else (if poll(tasks[0]).Ready? then 1 else 0) + CountReady(tasks[1..], poll)
  }

  /** The `retain` closure's walk: `acc` holds the images pushed and the
      handles kept so far; each remaining handle is polled exactly once, in
      order, and either applied and dropped or kept. */
  function Retain<P, H>(acc: Portfolio<P, H>, rest: seq<H>, poll: H -> Poll<P>): (r: Portfolio<P, H>)
    ensures r.images == acc.images + ReadyImages(rest, poll)
    ensures r.tasks == acc.tasks + Pending(rest, poll)
    decreases |rest|
  {
    if rest == [] then acc
    else
      var h, o := rest[0], poll(rest[0]);
      if o.Ready? then
        assert Pending(rest, poll) == Pending(rest[1..], poll);
        match o.response
        case Image(x) =>
          assert ReadyImages(rest, poll) == [x] + ReadyImages(rest[1..], poll);
          assert (acc.images + [x]) + ReadyImages(rest[1..], poll) == acc.images + ReadyImages(rest, poll);
          Retain(acc.(images := acc.images + [x]), rest[1..], poll)
        case Nothing =>
          assert ReadyImages(rest, poll) == ReadyImages(rest[1..], poll);
          Retain(acc, rest[1..], poll)
      else
        assert ReadyImages(rest, poll) == ReadyImages(rest[1..], poll);
        assert Pending(rest, poll) == [h] + Pending(rest[1..], poll);
        assert (acc.tasks + [h]) + Pending(rest[1..], poll) == acc.tasks + Pending(rest, poll);
        Retain(acc.(tasks := acc.tasks + [h]), rest[1..], poll)
  }

  /** `Portfolio::check_tasks`: one pass over the registry. The images gain the
      ready image payloads in registry order; the registry keeps exactly the
      entries without a value, in their original order. */
  function CheckTasks<P, H>(p: Portfolio<P, H>, poll: H -> Poll<P>): (r: Portfolio<P, H>)
    ensures r.images == p.images + ReadyImages(p.tasks, poll)
    ensures r.tasks == Pending(p.tasks, poll)
  {
    Retain(p.(tasks := []), p.tasks, poll)
  }

  /** A handle registered last is filtered after all the older ones. */
  lemma {:induction false} PendingSnoc<P, H>(tasks: seq<H>, h: H, poll: H -> Poll<P>)
    ensures Pending(tasks + [h], poll) == Pending(tasks, poll) + (if poll(h).Ready? then [] else [h])
  {
    if tasks == [] {
      assert [] + [h] == [h];
    } else {
      assert (tasks + [h])[1..] == tasks[1..] + [h];
      PendingSnoc(tasks[1..], h, poll);
    }
  }

  /** A handle registered last delivers its image after all the older ones. */
  lemma {:induction false} ReadyImagesSnoc<P, H>(tasks: seq<H>, h: H, poll: H -> Poll<P>)
    ensures ReadyImages(tasks + [h], poll)
         == ReadyImages(tasks, poll) + (if CarriesImage(poll(h)) then [poll(h).response.payload] else [])
  {
    var last: seq<P> := if CarriesImage(poll(h)) then [poll(h).response.payload] else [];
    if tasks == [] {
      assert [] + [h] == [h];
      assert ReadyImages([h], poll) == last + ReadyImages([], poll);
      assert last + [] == last && [] + last == last;
    } else {
      var o := poll(tasks[0]);
      var first: seq<P> := if CarriesImage(o) then [o.response.payload] else [];
      var t := tasks + [h];
      assert t[0] == tasks[0] && t[1..] == tasks[1..] + [h];
      assert ReadyImages(t, poll) == first + ReadyImages(tasks[1..] + [h], poll);
      ReadyImagesSnoc(tasks[1..], h, poll);
      assert ReadyImages(tasks, poll) == first + ReadyImages(tasks[1..], poll);
      assert first + (ReadyImages(tasks[1..], poll) + last) == (first + ReadyImages(tasks[1..], poll)) + last;
    }
  }

  /** A pass drops exactly the entries that had a value. */
  lemma CheckTasksCount<P, H>(p: Portfolio<P, H>, poll: H -> Poll<P>)
    ensures |CheckTasks(p, poll).tasks| == |p.tasks| - CountReady(p.tasks, poll)
  {
    PendingCount(p.tasks, poll);
  }

  lemma {:induction false} PendingCount<P, H>(tasks: seq<H>, poll: H -> Poll<P>)
    ensures |Pending(tasks, poll)| == |tasks| - CountReady(tasks, poll)
  {
    if tasks != [] {
      PendingCount(tasks[1..], poll);
    }
  }

  /** A handle survives a pass if and only if it was in the registry and had
      no value: every ready handle is gone, every empty or disconnected one is
      still there. */
  lemma CheckTasksMembership<P, H>(p: Portfolio<P, H>, poll: H -> Poll<P>, h: H)
    ensures h in CheckTasks(p, poll).tasks <==> h in p.tasks && !poll(h).Ready?
  {
    PendingMembership(p.tasks, poll, h);
  }

  lemma {:induction false} PendingMembership<P, H>(tasks: seq<H>, poll: H -> Poll<P>, h: H)
    ensures h in Pending(tasks, poll) <==> h in tasks && !poll(h).Ready?
  {
    if tasks != [] {
      PendingMembership(tasks[1..], poll, h);
      assert h in tasks <==> h == tasks[0] || h in tasks[1..];
    }
  }

  /** The positions a pass keeps, in increasing order, counting the first
      entry of `tasks` as position `base`. */
  function KeptPositions<P, H>(tasks: seq<H>, poll: H -> Poll<P>, base: nat): seq<nat>
  {
    if tasks == [] then []
    else (if poll(tasks[0]).Ready? then [] else [base]) + KeptPositions(tasks[1..], poll, base + 1)
  }

  /** Filter-in-place without skips or revisits: the kept registry is the
      original one read at a strictly increasing list of positions, and those
      positions are exactly the ones whose poll had no value. */
  lemma CheckTasksKeepsOrder<P, H>(p: Portfolio<P, H>, poll: H -> Poll<P>)
    ensures var t, pos := CheckTasks(p, poll).tasks, KeptPositions(p.tasks, poll, 0);
      && |pos| == |t|
      && (forall k :: 0 <= k < |pos| ==> pos[k] < |p.tasks| && t[k] == p.tasks[pos[k]])
      && (forall k, l :: 0 <= k < l < |pos| ==> pos[k] < pos[l])
      && (forall i :: 0 <= i < |p.tasks| ==> (i in pos <==> !poll(p.tasks[i]).Ready?))
  {
    KeptPositionsSelect(p.tasks, poll, 0);
    KeptPositionsIncreasing(p.tasks, poll, 0);
    KeptPositionsExact(p.tasks, poll, 0);
  }

  lemma {:induction false} KeptPositionsSelect<P, H>(tasks: seq<H>, poll: H -> Poll<P>, base: nat)
    ensures var t, pos := Pending(tasks, poll), KeptPositions(tasks, poll, base);
      && |pos| == |t|
      && (forall k :: 0 <= k < |pos| ==> base <= pos[k] < base + |tasks| && t[k] == tasks[pos[k] - base])
  {
    if tasks != [] {
      KeptPositionsSelect(tasks[1..], poll, base + 1);
    }
  }

  lemma {:induction false} KeptPositionsIncreasing<P, H>(tasks: seq<H>, poll: H -> Poll<P>, base: nat)
    ensures var pos := KeptPositions(tasks, poll, base);
      forall k, l :: 0 <= k < l < |pos| ==> pos[k] < pos[l]
  {
    if tasks != [] {
      KeptPositionsIncreasing(tasks[1..], poll, base + 1);
      KeptPositionsSelect(tasks[1..], poll, base + 1);
    }
  }

  lemma {:induction false} KeptPositionsAbove<P, H>(tasks: seq<H>, poll: H -> Poll<P>, base: nat)
    ensures forall x :: x in KeptPositions(tasks, poll, base) ==> base <= x
  {
    if tasks != [] {
      KeptPositionsAbove(tasks[1..], poll, base + 1);
    }
  }

  lemma {:induction false} KeptPositionsExact<P, H>(tasks: seq<H>, poll: H -> Poll<P>, base: nat)
    ensures var pos := KeptPositions(tasks, poll, base);
      forall i :: 0 <= i < |tasks| ==> (base + i in pos <==> !poll(tasks[i]).Ready?)
  {
    if tasks != [] {
      var tail := tasks[1..];
      var head: seq<nat> := if poll(tasks[0]).Ready? then [] else [base];
      var rest := KeptPositions(tail, poll, base + 1);
      var pos := KeptPositions(tasks, poll, base);
      assert pos == head + rest;
      KeptPositionsExact(tail, poll, base + 1);
      KeptPositionsAbove(tail, poll, base + 1);
      forall i | 0 <= i < |tasks|
        ensures base + i in pos <==> !poll(tasks[i]).Ready?
      {
        assert base + i in pos <==> base + i in head || base + i in rest;
        if i == 0 {
          assert base !in rest;
        } else {
          assert base + i !in head;
          assert tasks[i] == tail[i - 1];
          assert base + i == (base + 1) + (i - 1);
        }
      }
    }
  }

  /** After a pass no kept handle has a value under the same poll, so a
      response is applied at most once: a second pass is a no-op. */
  lemma CheckTasksIdempotent<P, H>(p: Portfolio<P, H>, poll: H -> Poll<P>)
    ensures CheckTasks(CheckTasks(p, poll), poll) == CheckTasks(p, poll)
  {
    NoReadyPending(p.tasks, poll);
    QuietPass(CheckTasks(p, poll), poll);
  }

  lemma {:induction false} NoReadyPending<P, H>(tasks: seq<H>, poll: H -> Poll<P>)
    ensures forall k :: 0 <= k < |Pending(tasks, poll)| ==> !poll(Pending(tasks, poll)[k]).Ready?
  {
    if tasks != [] {
      NoReadyPending(tasks[1..], poll);
    }
  }

  /** A pass over a registry where nothing has a value changes nothing. */
  lemma QuietPass<P, H>(p: Portfolio<P, H>, poll: H -> Poll<P>)
    requires forall k :: 0 <= k < |p.tasks| ==> !poll(p.tasks[k]).Ready?
    ensures CheckTasks(p, poll) == p
  {
    QuietPending(p.tasks, poll);
    assert p.images + [] == p.images;
  }

  lemma {:induction false} QuietPending<P, H>(tasks: seq<H>, poll: H -> Poll<P>)
    requires forall k :: 0 <= k < |tasks| ==> !poll(tasks[k]).Ready?
    ensures Pending(tasks, poll) == tasks && ReadyImages(tasks, poll) == []
  {
    if tasks != [] {
      QuietPending(tasks[1..], poll);
      assert [tasks[0]] + tasks[1..] == tasks;
    }
  }

  /** `Ready(Nothing)` entries are dropped but push nothing: if no ready entry
      carries an image, the images are unchanged. */
  lemma NothingLeavesImages<P, H>(p: Portfolio<P, H>, poll: H -> Poll<P>)
    requires forall k :: 0 <= k < |p.tasks| ==> !CarriesImage(poll(p.tasks[k]))
    ensures CheckTasks(p, poll).images == p.images
  {
    NoImagesReady(p.tasks, poll);
    assert p.images + [] == p.images;
  }

  lemma {:induction false} NoImagesReady<P, H>(tasks: seq<H>, poll: H -> Poll<P>)
    requires forall k :: 0 <= k < |tasks| ==> !CarriesImage(poll(tasks[k]))
    ensures ReadyImages(tasks, poll) == []
  {
    if tasks != [] {
      NoImagesReady(tasks[1..], poll);
    }
  }

  /** What one call of `update` sees: the polls of its pass, and whether
      "Add Image" was clicked in the "Images" window, with the fresh handle
      the click registers (`None` when nobody clicked). */
  datatype FrameInput<P, !H> = FrameInput(poll: H -> Poll<P>, click: Option<H>)

  /** One call of `update`: the pass over the registry first, then the
      "Images" window, which pushes the clicked handle at the back. A frame
      with a click is the only way the registry grows. */
  function Frame<P, H>(p: Portfolio<P, H>, f: FrameInput<P, H>): (r: Portfolio<P, H>)
    ensures r.images == p.images + ReadyImages(p.tasks, f.poll)
    ensures f.click.None? ==> r.tasks == Pending(p.tasks, f.poll)
    ensures f.click.Some? ==> r.tasks == Pending(p.tasks, f.poll) + [f.click.value]
    ensures |r.tasks| <= |p.tasks| + (if f.click.Some? then 1 else 0)
  {
    CheckTasksCount(p, f.poll);
    var q := CheckTasks(p, f.poll);
    if f.click.Some? then AddImage(q, f.click.value) else q
  }

  /** A run of frames, each with its own polls and click. Each frame adds at
      most one handle, none when nobody clicks, and the image list never
      shrinks. */
  function Frames<P, H>(p: Portfolio<P, H>, frames: seq<FrameInput<P, H>>): (r: Portfolio<P, H>)
    ensures |r.tasks| <= |p.tasks| + |frames|
    ensures (forall k :: 0 <= k < |frames| ==> frames[k].click.None?) ==> |r.tasks| <= |p.tasks|
    ensures |p.images| <= |r.images|
    decreases |frames|
  {
    if frames == [] then p
    else
      assert forall k :: 1 <= k < |frames| ==> frames[1..][k - 1] == frames[k];
      Frames(Frame(p, frames[0]), frames[1..])
  }

  /** `h` is the handle some frame of the run registers. */
  ghost predicate Clicked<P, H>(frames: seq<FrameInput<P, H>>, h: H)
  {
    exists k :: 0 <= k < |frames| && frames[k].click == Some(h)
  }

  /** A handle that never yields a value is never removed. The pass keeps
      every `Err` from `try_recv`, whether `Empty` (nothing sent yet) or
      `Disconnected` (the producer died without sending), and a click only
      appends, so such a handle stays in the registry through any number of
      frames. */
  lemma {:induction false} UnansweredStays<P, H>(p: Portfolio<P, H>, frames: seq<FrameInput<P, H>>, h: H)
    requires h in p.tasks
    requires forall k :: 0 <= k < |frames| ==> !frames[k].poll(h).Ready?
    ensures h in Frames(p, frames).tasks
    decreases |frames|
  {
    if frames != [] {
      CheckTasksMembership(p, frames[0].poll, h);
      assert h in Frame(p, frames[0]).tasks;
      assert forall k :: 0 <= k < |frames[1..]| ==> frames[1..][k] == frames[k + 1];
      UnansweredStays(Frame(p, frames[0]), frames[1..], h);
    }
  }

  /** Only "Add Image" adds handles: a handle registered after some frames was
      registered before them or is the one a click of the run registered. */
  lemma {:induction false} FramesOnlyAddClicked<P, H>(p: Portfolio<P, H>, frames: seq<FrameInput<P, H>>, h: H)
    ensures h in Frames(p, frames).tasks ==> h in p.tasks || Clicked(frames, h)
    decreases |frames|
  {
    if frames != [] {
      FrameOnlyAddsClick(p, frames[0], h);
      FramesOnlyAddClicked(Frame(p, frames[0]), frames[1..], h);
      ClickedCons(frames, h);
    }
  }

  lemma FrameOnlyAddsClick<P, H>(p: Portfolio<P, H>, f: FrameInput<P, H>, h: H)
    ensures h in Frame(p, f).tasks ==> h in p.tasks || f.click == Some(h)
  {
    CheckTasksMembership(p, f.poll, h);
  }

  lemma ClickedCons<P, H>(frames: seq<FrameInput<P, H>>, h: H)
    requires frames != []
    ensures Clicked(frames, h) <==> frames[0].click == Some(h) || Clicked(frames[1..], h)
  {
    if Clicked(frames[1..], h) {
      var k :| 0 <= k < |frames[1..]| && frames[1..][k].click == Some(h);
      assert frames[k + 1] == frames[1..][k];
    }
    if Clicked(frames, h) && frames[0].click != Some(h) {
      var k :| 0 <= k < |frames| && frames[k].click == Some(h);
      assert frames[1..][k - 1] == frames[k];
    }
  }

  /** At most once across frames: a handle whose value is taken on one frame
      is gone from then on, so no later frame polls it or applies its
      response again, whatever the later polls say. Clicks register fresh
      handles (`channel()` makes a new receiver each time), so no click of
      the run is `h`. */
  lemma DroppedStaysDropped<P, H>(p: Portfolio<P, H>, frames: seq<FrameInput<P, H>>, h: H)
    requires frames != [] && frames[0].poll(h).Ready?
    requires forall k :: 0 <= k < |frames| ==> frames[k].click != Some(h)
    ensures h !in Frames(p, frames).tasks
  {
    CheckTasksMembership(p, frames[0].poll, h);
    var q := Frame(p, frames[0]);
    assert h !in q.tasks;
    ClickedCons(frames, h);
    FramesOnlyAddClicked(q, frames[1..], h);
  }

  /** The images only grow: frames never remove or reorder shown images. */
  lemma {:induction false} FramesExtendImages<P, H>(p: Portfolio<P, H>, frames: seq<FrameInput<P, H>>)
    ensures |p.images| <= |Frames(p, frames).images|
    ensures Frames(p, frames).images[..|p.images|] == p.images
    decreases |frames|
  {
    if frames != [] {
      var q := Frame(p, frames[0]);
      FramesExtendImages(q, frames[1..]);
      assert q.images[..|p.images|] == p.images;
    }
  }

  /** No handle is registered twice. */
  predicate Distinct<H(==)>(tasks: seq<H>)
  {
    forall i, j :: 0 <= i < j < |tasks| ==> tasks[i] != tasks[j]
  }

  /** Registering a handle not yet present and running a pass both keep the
      registry free of duplicates, and so does a whole frame whose click
      registers a fresh handle. */
  lemma DistinctPreserved<P, H>(p: Portfolio<P, H>, poll: H -> Poll<P>, h: H)
    requires Distinct(p.tasks)
    ensures h !in p.tasks ==> Distinct(AddImage(p, h).tasks)
    ensures Distinct(CheckTasks(p, poll).tasks)
    ensures h !in p.tasks ==> Distinct(Frame(p, FrameInput(poll, Some(h))).tasks)
  {
    PendingDistinct(p.tasks, poll);
    PendingMembership(p.tasks, poll, h);
    var t := Pending(p.tasks, poll) + [h];
    if h !in p.tasks {
      forall i, j | 0 <= i < j < |t| ensures t[i] != t[j] {
        if j == |t| - 1 {
          assert t[i] in Pending(p.tasks, poll);
        }
      }
    }
  }

  lemma {:induction false} PendingDistinct<P, H>(tasks: seq<H>, poll: H -> Poll<P>)
    requires Distinct(tasks)
    ensures Distinct(Pending(tasks, poll))
  {
    if tasks != [] {
      PendingDistinct(tasks[1..], poll);
      PendingMembership(tasks[1..], poll, tasks[0]);
      assert tasks[0] !in tasks[1..] by {
        forall j | 0 <= j < |tasks[1..]| ensures tasks[1..][j] != tasks[0] {
          assert tasks[1..][j] == tasks[j + 1];
        }
      }
      var t := Pending(tasks, poll);
      var rest := Pending(tasks[1..], poll);
      if !poll(tasks[0]).Ready? {
        assert t == [tasks[0]] + rest;
        forall i, j | 0 <= i < j < |t| ensures t[i] != t[j] {
          if i == 0 {
            assert t[j] == rest[j - 1];
            assert rest[j - 1] in rest;
          } else {
            assert t[i] == rest[i - 1] && t[j] == rest[j - 1];
          }
        }
      }
    }
  }

  /** Two "Add Image" clicks before the run; on frame one the second unit
      delivers an image while the first is silent, and a third click
      registers handle 3 after the pass; on frame two the first unit delivers
      `Nothing`: afterwards exactly that image is shown and only the third
      handle is still registered. */
  lemma Scenario(img: int)
    ensures var p0 := AddImage(AddImage(Default<int, nat>(), 1), 2);
      var frame1 := FrameInput((h: nat) => if h == 2 then Ready(Image(img)) else Empty, Some(3));
      var frame2 := FrameInput((h: nat) => if h == 1 then Ready(Nothing) else Empty, None);
      Frames(p0, [frame1, frame2]) == Portfolio([img], [3])
  {
    var p0 := AddImage(AddImage(Default<int, nat>(), 1), 2);
    var frame1 := FrameInput((h: nat) => if h == 2 then Ready(Image(img)) else Empty, Some(3));
    var frame2 := FrameInput((h: nat) => if h == 1 then Ready(Nothing) else Empty, None);
    assert p0.tasks == [1, 2];
    var p1 := Frame(p0, frame1);
    assert CheckTasks(p0, frame1.poll) == Portfolio([img], [1]);
    assert p1 == Portfolio([img], [1, 3]);
    var p2 := Frame(p1, frame2);
    assert p2 == Portfolio([img], [3]);
    assert [frame1, frame2][1..] == [frame2];
    assert Frames(p0, [frame1, frame2]) == Frames(p1, [frame2]);
    assert Frames(p1, [frame2]) == Frames(p2, []);
  }
}
