// The display multiplexer: a queue of screens, the time the front screen was
// put up, and one `draw` per frame that applies pending deletions and
// additions, moves on to the next screen when the front one's time is up,
// and draws the front screen.
//
// The screens and deletion ids arrive on two channels from the message
// handler, and a shared flag puts the display to sleep; each is an object
// the handler and the multiplexer both hold. Times are milliseconds.

module DisplayLogics {
  import opened Wrappers
  import opened Graphics
  import opened Screens
  import TextScreens
  import EnvironmentScreens
  import HateScreens

  /** The receiving end of the screen channel: what has been sent and not
      yet received, oldest first. */
  class ScreenChannel {
    var queue: seq<Screen>

    constructor()
      ensures queue == []
    {
      queue := [];
    }

    method Send(s: Screen)
      modifies this
      ensures queue == old(queue) + [s]
    {
      queue := queue + [s];
    }

    /** `try_iter().next()`: the oldest pending screen, if any. */
    method TryRecv() returns (r: Option<Screen>)
      modifies this
      ensures old(queue) == [] ==> r == None && queue == []
      ensures old(queue) != [] ==> r == Some(old(queue)[0]) && queue == old(queue)[1..]
    {
      if queue == [] {
        r := None;
      } else {
        r := Some(queue[0]);
        queue := queue[1..];
      }
    }
  }

  /** The receiving end of the deletion channel: ids of screens to remove. */
  class IdChannel {
    var queue: seq<string>

    constructor()
      ensures queue == []
    {
      queue := [];
    }

    method Send(id: string)
      modifies this
      ensures queue == old(queue) + [id]
    {
      queue := queue + [id];
    }

    method TryRecv() returns (r: Option<string>)
      modifies this
      ensures old(queue) == [] ==> r == None && queue == []
      ensures old(queue) != [] ==> r == Some(old(queue)[0]) && queue == old(queue)[1..]
    {
      if queue == [] {
        r := None;
      } else {
        r := Some(queue[0]);
        queue := queue[1..];
      }
    }
  }

  /** The shared sleep flag. */
  class SleepFlag {
    var value: bool

    constructor(value: bool)
      ensures this.value == value
    {
      this.value := value;
    }
  }

  /** The screens whose id is none of `ids`, in their original order. */
  function Keep(q: seq<Screen>, ids: seq<string>): (r: seq<Screen>)
    ensures |r| <= |q|
    ensures forall s :: s in r <==> s in q && Id(s) !in ids
  {
    if q == [] then []
    else
      assert q == [q[0]] + q[1..];
      (if Id(q[0]) in ids then [] else [q[0]]) + Keep(q[1..], ids)
  }

  /** `retain(|s| s.id() != id)`. */
  function RemoveId(q: seq<Screen>, id: string): seq<Screen>
  {
    Keep(q, [id])
  }

  /** One `retain` per id received, in the order received. */
  function RemoveIds(q: seq<Screen>, ids: seq<string>): seq<Screen>
  {
    if ids == [] then q
    else RemoveId(RemoveIds(q, ids[..|ids| - 1]), ids[|ids| - 1])
  }

  /** Keeping works piece by piece, so kept screens stay in their relative
      order. */
  lemma {:induction false} KeepConcat(a: seq<Screen>, b: seq<Screen>, ids: seq<string>)
    ensures Keep(a + b, ids) == Keep(a, ids) + Keep(b, ids)
  {
    if a == [] {
      assert a + b == b;
    } else {
      assert (a + b)[0] == a[0];
      assert (a + b)[1..] == a[1..] + b;
      KeepConcat(a[1..], b, ids);
    }
  }

  lemma {:induction false} KeepTwice(q: seq<Screen>, ids: seq<string>, id: string)
    ensures RemoveId(Keep(q, ids), id) == Keep(q, ids + [id])
  {
    if q != [] {
      KeepTwice(q[1..], ids, id);
      var head := if Id(q[0]) in ids then [] else [q[0]];
      KeepConcat(head, Keep(q[1..], ids), [id]);
    }
  }

  lemma {:induction false} KeepNone(q: seq<Screen>)
    ensures Keep(q, []) == q
  {
    if q != [] {
      KeepNone(q[1..]);
    }
  }

  /** Removing the ids one after another is one filter by all of them. */
  lemma {:induction false} RemoveIdsIsKeep(q: seq<Screen>, ids: seq<string>)
    ensures RemoveIds(q, ids) == Keep(q, ids)
  {
    if ids == [] {
      KeepNone(q);
    } else {
      var init := ids[..|ids| - 1];
      RemoveIdsIsKeep(q, init);
      KeepTwice(q, init, ids[|ids| - 1]);
      assert init + [ids[|ids| - 1]] == ids;
    }
  }

  /** `rotate_left(1)`. */
  function RotateLeft(q: seq<Screen>): (r: seq<Screen>)
    ensures |r| == |q|
    ensures q != [] ==> r[|r| - 1] == q[0] && r[..|r| - 1] == q[1..]
  {
    if q == [] then [] else q[1..] + [q[0]]
  }

  /** A rotation loses and duplicates no screen. */
  lemma RotateLeftPermutes(q: seq<Screen>)
    ensures multiset(RotateLeft(q)) == multiset(q)
  {
    if q != [] {
      assert q == [q[0]] + q[1..];
    }
  }

  function RotateLeftTimes(q: seq<Screen>, n: nat): seq<Screen>
    decreases n
  {
    if n == 0 then q else RotateLeftTimes(RotateLeft(q), n - 1)
  }

  lemma OneRotationOfOne(q: seq<Screen>)
    requires |q| == 1
    ensures RotateLeft(q) == q
  {
  }

  /** After n rotations the first n screens have moved to the back. */
  lemma {:induction false} RotateLeftTimesSplits(q: seq<Screen>, n: nat)
    requires n <= |q|
    ensures RotateLeftTimes(q, n) == q[n..] + q[..n]
    decreases n
  {
    if n > 0 {
      var r := RotateLeft(q);
      assert r == q[1..] + [q[0]];
      RotateLeftTimesSplits(r, n - 1);
      assert r[n - 1..] == q[n..] + [q[0]];
      assert r[..n - 1] == q[1..n];
      assert q[..n] == [q[0]] + q[1..n];
    }
  }

  /** Rotating an N-screen queue N times gives the queue back. */
  lemma RotateLeftFullCircle(q: seq<Screen>)
    ensures RotateLeftTimes(q, |q|) == q
  {
    RotateLeftTimesSplits(q, |q|);
  }

  /** Everything one `draw` produces: the new queue and timer, and the sink
      with the outcome of the call. */
  datatype TickOutput = TickOutput(queue: seq<Screen>, last: Option<nat>, target: Target, status: Status)

  /** Draw the front screen; its updated state goes back at the front. */
  function DrawFront(q: seq<Screen>, last: Option<nat>, t: Target, now: nat): (r: TickOutput)
    requires q != []
    ensures r.queue == [Draw(q[0], t, now).0] + q[1..]
    ensures |r.queue| == |q| && Id(r.queue[0]) == Id(q[0])
    ensures r.last == last
    ensures Issued(r.target, r.status) == Draw(q[0], t, now).1
  {
    var (s, issued) := Draw(q[0], t, now);
    TickOutput([s] + q[1..], last, issued.target, issued.status)
  }

  /** One call to `draw` at time `now`, given the queue, the timer, the sleep
      flag and what is pending on the deletion and screen channels. */
  function Tick(queue: seq<Screen>, last: Option<nat>, sleep: bool,
                dels: seq<string>, adds: seq<Screen>, now: nat, t: Target): TickOutput
  {
    if sleep then
      var cleared := ClearBlack(t);
      TickOutput(queue, last, cleared.target, cleared.status)
    else Show(Drained(queue, dels, adds), last, now, t)
  }

  /** The part of `draw` after the channels are drained: move on if the
      front screen's time is up, then draw the front screen. */
  function Show(q1: seq<Screen>, last: Option<nat>, now: nat, t: Target): TickOutput
  {
    if q1 == [] then
      var cleared := ClearBlack(t);
      TickOutput([], None, cleared.target, cleared.status)
    else
      var start := last.GetOr(now);
      var displayedFor := SatSub(now, start);
      if displayedFor >= SingleDisplayDuration(q1[0], t.width) then
        var paused := Paused(q1[0], displayedFor);
        var q2 := if ShouldRemove(paused) then q1[1..] else q1[1..] + [paused];
        var cleared := ClearBlack(t);
        if cleared.status == Err then TickOutput(q2, Some(now), cleared.target, Err)
        else if q2 == [] then
          var again := ClearBlack(cleared.target);
          TickOutput([], None, again.target, again.status)
        else DrawFront(q2, Some(now), cleared.target, now)
      else DrawFront(q1, Some(start), t, now)
  }

  /** The queue after deletions and additions, before any expiry. */
  function Drained(queue: seq<Screen>, dels: seq<string>, adds: seq<Screen>): seq<Screen>
  {
    RemoveIds(queue, dels) + adds
  }

  /** Asleep: clear to black and change nothing else. */
  lemma TickWhileAsleep(queue: seq<Screen>, last: Option<nat>, dels: seq<string>,
                        adds: seq<Screen>, now: nat, t: Target)
    ensures var out := Tick(queue, last, true, dels, adds, now, t);
            out.queue == queue && out.last == last &&
            (out.status == Ok <==> t.accepts > 0) &&
            (out.status == Ok ==> out.target.drawn == t.drawn + [Clear(BLACK)]) &&
            (out.status == Err ==> out.target == t)
  {
  }

  /** Deletions are applied before additions: after draining, a screen is
      queued iff it was queued before and its id was not deleted, or it was
      just added, whatever its id. Queued screens keep their order. */
  lemma DrainedMembers(queue: seq<Screen>, dels: seq<string>, adds: seq<Screen>, s: Screen)
    ensures s in Drained(queue, dels, adds) <==> (s in queue && Id(s) !in dels) || s in adds
    ensures Drained(queue, dels, adds) == Keep(queue, dels) + adds
  {
    RemoveIdsIsKeep(queue, dels);
  }

  /** With nothing queued after draining, the display is cleared and the
      timer forgotten; no screen is asked anything. */
  lemma TickWhenEmpty(queue: seq<Screen>, last: Option<nat>, dels: seq<string>,
                      adds: seq<Screen>, now: nat, t: Target)
    requires Drained(queue, dels, adds) == []
    ensures var out := Tick(queue, last, false, dels, adds, now, t);
            out.queue == [] && out.last == None &&
            (out.status == Ok ==> out.target.drawn == t.drawn + [Clear(BLACK)])
  {
  }

  /** Before the front screen's time is up: the timer is started if it was
      not running and otherwise kept, the order is kept, and the front screen
      draws the frame. */
  lemma TickBeforeExpiry(queue: seq<Screen>, last: Option<nat>, dels: seq<string>,
                         adds: seq<Screen>, now: nat, t: Target)
    requires var q1 := Drained(queue, dels, adds);
             q1 != [] && SatSub(now, last.GetOr(now)) < SingleDisplayDuration(q1[0], t.width)
    ensures var q1 := Drained(queue, dels, adds);
            var out := Tick(queue, last, false, dels, adds, now, t);
            out.last == Some(last.GetOr(now)) &&
            (last.Some? ==> out.last == last) &&
            out.queue == [Draw(q1[0], t, now).0] + q1[1..] && Id(out.queue[0]) == Id(q1[0]) &&
            Issued(out.target, out.status) == Draw(q1[0], t, now).1
  {
  }

  /** When the front screen's time is up it is paused first, and then, by
      what the paused screen says, removed or sent to the back; the timer
      restarts now. */
  lemma TickAtExpiry(queue: seq<Screen>, last: Option<nat>, dels: seq<string>,
                     adds: seq<Screen>, now: nat, t: Target)
    requires var q1 := Drained(queue, dels, adds);
             q1 != [] && SatSub(now, last.GetOr(now)) >= SingleDisplayDuration(q1[0], t.width)
    ensures var q1 := Drained(queue, dels, adds);
            var paused := Paused(q1[0], SatSub(now, last.GetOr(now)));
            var q2 := if ShouldRemove(paused) then q1[1..] else q1[1..] + [paused];
            var out := Tick(queue, last, false, dels, adds, now, t);
            (t.accepts == 0 ==> out == TickOutput(q2, Some(now), t, Err)) &&
            (t.accepts > 0 && q2 == [] ==>
               out.queue == [] && out.last == None &&
               Issued(out.target, out.status) == ClearBlack(ClearBlack(t).target)) &&
            (t.accepts > 0 && q2 != [] ==>
               out.queue == [Draw(q2[0], ClearBlack(t).target, now).0] + q2[1..] &&
               out.last == Some(now) && Id(out.queue[0]) == Id(q2[0]) &&
               Issued(out.target, out.status) == Draw(q2[0], ClearBlack(t).target, now).1)
  {
  }

  /** A lone screen that is never removed stays up across its
      expiry; a one-screen rotation changes nothing but the pause. */
  lemma LoneEnvironmentScreenStays(e: EnvironmentScreens.EnvironmentScreen, start: nat, now: nat, t: Target)
    requires now >= start + 5000 && t.accepts >= 3
    ensures var out := Tick([Environment(e)], Some(start), false, [], [], now, t);
            out.queue == [Environment(e)] && out.last == Some(now) && out.status == Ok &&
            out.target.drawn == t.drawn + [Clear(BLACK)] + EnvironmentScreenFrame(e)
  {
    assert RemoveIds([Environment(e)], []) + [] == [Environment(e)];
  }

  /** The two commands an environment screen draws. */
  function EnvironmentScreenFrame(e: EnvironmentScreens.EnvironmentScreen): seq<Command>
  {
    var colour := EnvironmentScreens.Co2Colour(e.co2);
    [Clear(BLACK), EnvironmentLayout(EnvironmentScreens.ICON_HEIGHT, Recolour(BLACK, colour), e.co2, colour, e.temp)]
  }

  /** A one-shot screen in front of another is popped when its time
      is up and the next one is drawn in the same call, with no blank frame. */
  lemma OneShotPoppedAndNextDrawn(h: HateScreens.HateScreen, e: EnvironmentScreens.EnvironmentScreen,
                                  start: nat, now: nat, t: Target)
    requires now >= start + HateScreens.DISPLAY_DURATION && t.accepts >= 3
    ensures var out := Tick([Hate(h), Environment(e)], Some(start), false, [], [], now, t);
            out.queue == [Environment(e)] && out.last == Some(now) && out.status == Ok &&
            out.target.drawn == t.drawn + [Clear(BLACK)] + EnvironmentScreenFrame(e)
  {
    assert RemoveIds([Hate(h), Environment(e)], []) + [] == [Hate(h), Environment(e)];
  }

  /** Deleting the front screen by id does not restart the timer: the next
      screen inherits the running time. */
  lemma DeletingFrontKeepsTimer(queue: seq<Screen>, lastChange: nat, dels: seq<string>,
                                adds: seq<Screen>, now: nat, t: Target)
    requires queue != [] && Id(queue[0]) in dels
    requires var q1 := Drained(queue, dels, adds);
             q1 != [] && SatSub(now, lastChange) < SingleDisplayDuration(q1[0], t.width)
    ensures queue[0] in Drained(queue, dels, adds) ==> queue[0] in adds
    ensures Tick(queue, Some(lastChange), false, dels, adds, now, t).last == Some(lastChange)
  {
    DrainedMembers(queue, dels, adds, queue[0]);
  }

  /** A lone text screen counts its showings down at each expiry and is gone
      at the one that brings its count to zero: with the default count of
      four, after exactly four showings. */
  lemma LoneTextScreenExpiry(s: TextScreens.TextScreen, start: nat, now: nat, t: Target)
    requires now >= start + TextScreens.SingleDisplayDuration(s, t.width) && t.accepts >= 2
    ensures var out := Tick([Text(s)], Some(start), false, [], [], now, t);
            (s.showCount <= 1 ==> out.queue == [] && out.last == None) &&
            (s.showCount > 1 ==> |out.queue| == 1 && out.queue[0].Text? &&
                                 out.queue[0].text.showCount == s.showCount - 1 &&
                                 out.queue[0].text.text == s.text && out.last == Some(now))
  {
    assert RemoveIds([Text(s)], []) + [] == [Text(s)];
  }

  /** A screen sent with a deleted id in the same frame is kept: deletions
      only reach screens queued before them. */
  lemma AddedScreenSurvivesDeletion(queue: seq<Screen>, dels: seq<string>, adds: seq<Screen>, s: Screen)
    requires s in adds && Id(s) in dels
    ensures s in Drained(queue, dels, adds)
  {
    DrainedMembers(queue, dels, adds, s);
  }

  /** Replace-by-id: when "environment" is deleted and one environment screen
      sent in the same frame, that screen is queued and every environment
      screen left is that one. */
  lemma EnvironmentReplaced(queue: seq<Screen>, dels: seq<string>, e: EnvironmentScreens.EnvironmentScreen)
    requires "environment" in dels
    ensures Environment(e) in Drained(queue, dels, [Environment(e)])
    ensures forall s :: s in Drained(queue, dels, [Environment(e)]) && s.Environment? ==> s == Environment(e)
  {
    DrainedMembers(queue, dels, [Environment(e)], Environment(e));
    forall s | s in Drained(queue, dels, [Environment(e)]) && s.Environment?
      ensures s == Environment(e)
    {
      DrainedMembers(queue, dels, [Environment(e)], s);
    }
  }

  /** The deletion and the screen travel on two channels. When both arrive
      after one frame has drained its deletions but before it drains its
      additions, that frame appends the new screen without deleting the old
      one, and the next frame's deletion removes both: no environment screen
      is left at all. */
  lemma StraddledRefreshLosesScreen(queue: seq<Screen>, e: EnvironmentScreens.EnvironmentScreen)
    ensures var q1 := Drained(queue, [], [Environment(e)]);
            var q2 := Drained(q1, ["environment"], []);
            Environment(e) in q1 && forall s :: s in q2 ==> !s.Environment?
  {
    var q1 := Drained(queue, [], [Environment(e)]);
    DrainedMembers(queue, [], [Environment(e)], Environment(e));
    forall s | s in Drained(q1, ["environment"], [])
      ensures !s.Environment?
    {
      DrainedMembers(q1, ["environment"], [], s);
    }
  }

  class DisplayLogic {
    var currScreens: seq<Screen>
    var lastScreenChange: Option<nat>
    const recvScreen: ScreenChannel
    const recvDelScreen: IdChannel
    const sleep: SleepFlag

    constructor(recvScreen: ScreenChannel, recvDelScreen: IdChannel, sleep: SleepFlag)
      ensures currScreens == [] && lastScreenChange == None
      ensures this.recvScreen == recvScreen && this.recvDelScreen == recvDelScreen && this.sleep == sleep
    {
      this.recvScreen := recvScreen;
      this.recvDelScreen := recvDelScreen;
      this.currScreens := [];
      this.lastScreenChange := None;
      this.sleep := sleep;
    }

    /** Add a screen at the back of the rotation. */
    method Add(s: Screen)
      modifies this
      ensures currScreens == old(currScreens) + [s]
      ensures lastScreenChange == old(lastScreenChange)
    {
      currScreens := currScreens + [s];
    }

    /** Draw a frame at time `now`. */
    method Draw(t: Target, now: nat) returns (r: Issued)
      modifies this, recvScreen, recvDelScreen
      ensures var out := Tick(old(currScreens), old(lastScreenChange), sleep.value,
                              old(recvDelScreen.queue), old(recvScreen.queue), now, t);
              currScreens == out.queue && lastScreenChange == out.last &&
              r == Issued(out.target, out.status)
      ensures sleep.value ==> recvScreen.queue == old(recvScreen.queue) &&
                              recvDelScreen.queue == old(recvDelScreen.queue)
      ensures !sleep.value ==> recvScreen.queue == [] && recvDelScreen.queue == []
    {
      if sleep.value {
        r := ClearBlack(t);
        return;
      }

      DrainDeletions();
      DrainAdditions();
      r := ShowFront(t, now);
    }

    /** Apply every pending deletion, in the order sent. */
    method DrainDeletions()
      modifies this, recvDelScreen
      ensures currScreens == RemoveIds(old(currScreens), old(recvDelScreen.queue))
      ensures recvDelScreen.queue == [] && lastScreenChange == old(lastScreenChange)
    {
      ghost var dels: seq<string> := [];
      while true
        invariant currScreens == RemoveIds(old(currScreens), dels)
        invariant old(recvDelScreen.queue) == dels + recvDelScreen.queue
        invariant lastScreenChange == old(lastScreenChange)
        decreases |recvDelScreen.queue|
      {
        var del := recvDelScreen.TryRecv();
        match del {
          case None => break;
          case Some(id) =>
            ghost var before := dels;
            currScreens := RemoveId(currScreens, id);
            dels := dels + [id];
            assert dels[..|dels| - 1] == before;
        }
      }
      assert dels == old(recvDelScreen.queue);
    }

    /** Append every pending screen, in the order sent. */
    method DrainAdditions()
      modifies this, recvScreen
      ensures currScreens == old(currScreens) + old(recvScreen.queue)
      ensures recvScreen.queue == [] && lastScreenChange == old(lastScreenChange)
    {
      ghost var adds: seq<Screen> := [];
      while true
        invariant currScreens == old(currScreens) + adds
        invariant old(recvScreen.queue) == adds + recvScreen.queue
        invariant lastScreenChange == old(lastScreenChange)
        decreases |recvScreen.queue|
      {
        var added := recvScreen.TryRecv();
        match added {
          case None => break;
          case Some(s) =>
            currScreens := currScreens + [s];
            adds := adds + [s];
        }
      }
      assert adds == old(recvScreen.queue);
    }

    /** Move on if the front screen's time is up, then draw the front. */
    method ShowFront(t: Target, now: nat) returns (r: Issued)
      modifies this
      ensures var out := Show(old(currScreens), old(lastScreenChange), now, t);
              currScreens == out.queue && lastScreenChange == out.last &&
              r == Issued(out.target, out.status)
    {
      if currScreens == [] {
        lastScreenChange := None;
        r := ClearBlack(t);
        return;
      }

      if lastScreenChange == None {
        lastScreenChange := Some(now);
      }
      var displayedFor := SatSub(now, lastScreenChange.value);
      var target := t;
      if displayedFor >= SingleDisplayDuration(currScreens[0], t.width) {
        var screen := Paused(currScreens[0], displayedFor);
        currScreens := [screen] + currScreens[1..];
        if ShouldRemove(screen) {
          currScreens := currScreens[1..];
        } else {
          currScreens := RotateLeft(currScreens);
        }
        lastScreenChange := Some(now);
        r := ClearBlack(t);
        if r.status == Err {
          return;
        }
        target := r.target;
      }

      if currScreens == [] {
        lastScreenChange := None;
        r := ClearBlack(target);
        return;
      }

      var (screen, issued) := Screens.Draw(currScreens[0], target, now);
      currScreens := [screen] + currScreens[1..];
      r := issued;
    }
  }
}
