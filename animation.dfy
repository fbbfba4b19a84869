/**
 * The animation frame scheduler of src/Animation.js: a registry of animations
 * keyed by id, an id counter, a running flag and a frame record that every
 * tick updates in place. A tick advances the clock, calls every animation's
 * `func` with the frame and then draws each distinct target node once.
 *
 * The wall clock is the `now` argument of the methods that read it, and
 * "request the next animation frame" is the `tickPending` flag, which the
 * platform consumes by calling `FrameCallback`.
 */
module Animation {
  import opened Wrappers
  import opened Keys

  /** A drawable node, known to the scheduler only by its `_id` (None when undefined). */
  datatype Node = Node(nodeId: Option<nat>)

  /** An animation object: its id, its optional `node` and whether it has a `func`. */
  datatype Anim = Anim(id: nat, node: Option<Node>, hasFunc: bool)

  /** A snapshot of the frame record `{time, timeDiff, lastTime}`. */
  datatype FrameInfo = FrameInfo(time: int, timeDiff: int, lastTime: int)

  /** What a tick does to the outside world: call an animation's `func` with the
      frame, or call `draw()` on the node whose `_id` is given. */
  datatype Effect = Invoke(animId: nat, frame: FrameInfo) | Draw(nodeId: nat)

  /** The key under which a tick remembers the animation's node, if it draws one. */
  function DrawKey(a: Anim): Option<nat> {
    if a.node.Some? then a.node.value.nodeId else None
  }

  /** The `_id`s of the nodes that the registered animations target. */
  ghost function NodeIds(anims: map<nat, Anim>): set<nat> {
    set k | k in anims && DrawKey(anims[k]).Some? :: DrawKey(anims[k]).value
  }

  // ---------------------------------------------------------------------------
  // The clock

  /** One clock step: the frame after a tick observed at wall-clock `now`. */
  function Advance(f: FrameInfo, now: int): FrameInfo {
    FrameInfo(f.time + (now - f.lastTime), now - f.lastTime, now)
  }

  /** The frame after ticks observed at each of `nows` in turn. */
  function Ticks(f: FrameInfo, nows: seq<int>): FrameInfo
    decreases |nows|
  {
    if nows == [] then f else Advance(Ticks(f, nows[..|nows| - 1]), nows[|nows| - 1])
  }

  /** Over any run of ticks, `time` grows by exactly the wall-clock span from the
      starting `lastTime` to the last tick, and `lastTime` is that last tick. In
      particular a run that starts from `lastTime == 0` (the value left by an
      idle stop or by a restart while running) adds the whole of `now`. */
  lemma {:induction false} TicksAccumulate(f: FrameInfo, nows: seq<int>)
    requires nows != []
    ensures Ticks(f, nows).time == f.time + nows[|nows| - 1] - f.lastTime
    ensures Ticks(f, nows).lastTime == nows[|nows| - 1]
    decreases |nows|
  {
    var init := nows[..|nows| - 1];
    if init != [] {
      TicksAccumulate(f, init);
      assert init[|init| - 1] == nows[|nows| - 2];
    }
  }

  // ---------------------------------------------------------------------------
  // One pass of `_runFrames`, as a specification over the registry

  /** The `nodes` hash after the first loop of `_runFrames` has visited `ks`:
      a later animation with the same node `_id` overwrites an earlier one. */
  function NodesOf(anims: map<nat, Anim>, ks: seq<nat>): map<nat, Node>
    decreases |ks|
  {
    if ks == [] then map[]
    else
      var prev := NodesOf(anims, ks[..|ks| - 1]);
      var k := ks[|ks| - 1];
      if k in anims && DrawKey(anims[k]).Some? then prev[DrawKey(anims[k]).value := anims[k].node.value]
      else prev
  }

  /** The `func` calls the first loop of `_runFrames` makes while visiting `ks`. */
  function Invocations(anims: map<nat, Anim>, ks: seq<nat>, fr: FrameInfo): seq<Effect>
    decreases |ks|
  {
    if ks == [] then []
    else
      var k := ks[|ks| - 1];
      Invocations(anims, ks[..|ks| - 1], fr) + (if k in anims && anims[k].hasFunc then [Invoke(k, fr)] else [])
  }

  /** The `draw()` calls of the second loop of `_runFrames`. */
  function Draws(ids: seq<nat>): seq<Effect>
    decreases |ids|
  {
    if ids == [] then [] else Draws(ids[..|ids| - 1]) + [Draw(ids[|ids| - 1])]
  }

  /** Everything one `_runFrames` call does, in order, on registry `anims` with frame `fr`. */
  ghost function TickEffects(anims: map<nat, Anim>, fr: FrameInfo): seq<Effect> {
    var ks := SortedKeys(anims.Keys);
    Invocations(anims, ks, fr) + Draws(SortedKeys(NodesOf(anims, ks).Keys))
  }

  /** Whether `throwAt` names one of the calls in `calls`. */
  predicate Throws(calls: seq<Effect>, throwAt: Option<nat>) {
    throwAt.Some? && throwAt.value < |calls|
  }

  /** The calls a tick actually makes when the call at index `throwAt`, if
      any, throws: all of them up to and including the throwing one. */
  function Performed(calls: seq<Effect>, throwAt: Option<nat>): (r: seq<Effect>)
    ensures r <= calls
    ensures Throws(calls, throwAt) ==> |r| == throwAt.value + 1 && r[|r| - 1] == calls[throwAt.value]
    ensures !Throws(calls, throwAt) ==> r == calls
  {
    if Throws(calls, throwAt) then calls[..throwAt.value + 1] else calls
  }

  lemma {:induction false} NodesOfDomain(anims: map<nat, Anim>, ks: seq<nat>, n: nat)
    ensures n in NodesOf(anims, ks) <==>
            exists i :: 0 <= i < |ks| && ks[i] in anims && DrawKey(anims[ks[i]]) == Some(n)
    decreases |ks|
  {
    if ks != [] {
      var init := ks[..|ks| - 1];
      NodesOfDomain(anims, init, n);
      if exists i :: 0 <= i < |init| && init[i] in anims && DrawKey(anims[init[i]]) == Some(n) {
        var i :| 0 <= i < |init| && init[i] in anims && DrawKey(anims[init[i]]) == Some(n);
        assert ks[i] == init[i];
      }
      if exists i :: 0 <= i < |ks| && ks[i] in anims && DrawKey(anims[ks[i]]) == Some(n) {
        var i :| 0 <= i < |ks| && ks[i] in anims && DrawKey(anims[ks[i]]) == Some(n);
        if i < |init| {
          assert init[i] == ks[i];
        }
      }
    }
  }

  lemma {:induction false} DrawsCount(ids: seq<nat>, e: Effect)
    ensures multiset(Draws(ids))[e] == if e.Draw? then multiset(ids)[e.nodeId] else 0
    decreases |ids|
  {
    if ids != [] {
      var init := ids[..|ids| - 1];
      DrawsCount(init, e);
      assert ids == init + [ids[|ids| - 1]];
      assert multiset(ids) == multiset(init) + multiset{ids[|ids| - 1]};
    }
  }

  lemma {:induction false} InvocationsCount(anims: map<nat, Anim>, ks: seq<nat>, fr: FrameInfo, e: Effect)
    ensures multiset(Invocations(anims, ks, fr))[e] ==
            if e.Invoke? && e.frame == fr && e.animId in anims && anims[e.animId].hasFunc
            then multiset(ks)[e.animId] else 0
    decreases |ks|
  {
    if ks != [] {
      var init := ks[..|ks| - 1];
      InvocationsCount(anims, init, fr, e);
      assert ks == init + [ks[|ks| - 1]];
      assert multiset(ks) == multiset(init) + multiset{ks[|ks| - 1]};
    }
  }

  /** One tick draws the node with `_id` n exactly once when some registered
      animation targets it (however many do), and never otherwise: animations
      without a node, or whose node has no `_id`, cause no draw. */
  lemma EachNodeDrawnOnce(anims: map<nat, Anim>, fr: FrameInfo, n: nat)
    ensures multiset(TickEffects(anims, fr))[Draw(n)] == if n in NodeIds(anims) then 1 else 0
  {
    var ks := SortedKeys(anims.Keys);
    var nodes := NodesOf(anims, ks);
    var ids := SortedKeys(nodes.Keys);
    InvocationsCount(anims, ks, fr, Draw(n));
    DrawsCount(ids, Draw(n));
    SortedKeysSpec(nodes.Keys);
    OccursOnce(ids, n);
    SortedKeysSpec(anims.Keys);
    NodesOfDomain(anims, ks, n);
    if n in NodeIds(anims) {
      var k :| k in anims && DrawKey(anims[k]) == Some(n);
      var i :| 0 <= i < |ks| && ks[i] == k;
    }
    if n in nodes {
      var i :| 0 <= i < |ks| && ks[i] in anims && DrawKey(anims[ks[i]]) == Some(n);
      assert n in NodeIds(anims);
    }
  }

  /** One tick calls the `func` of every registered animation that has one
      exactly once, always with the current frame, and calls nothing else. */
  lemma EachFuncInvokedOnce(anims: map<nat, Anim>, fr: FrameInfo, e: Effect)
    requires e.Invoke?
    ensures multiset(TickEffects(anims, fr))[e] ==
            if e.animId in anims && anims[e.animId].hasFunc && e.frame == fr then 1 else 0
  {
    var ks := SortedKeys(anims.Keys);
    var ids := SortedKeys(NodesOf(anims, ks).Keys);
    InvocationsCount(anims, ks, fr, e);
    DrawsCount(ids, e);
    SortedKeysSpec(anims.Keys);
    OccursOnce(ks, e.animId);
  }

  // ---------------------------------------------------------------------------
  // The process-wide state

  /** The first loop of `_runFrames`: every animation, in key order, has its
      `func` called with the frame, and its node, when it has one, is recorded
      under the node's `_id`. */
  method CallFuncs(anims: map<nat, Anim>, fr: FrameInfo) returns (nodes: map<nat, Node>, invoked: seq<Effect>)
    ensures nodes == NodesOf(anims, SortedKeys(anims.Keys))
    ensures invoked == Invocations(anims, SortedKeys(anims.Keys), fr)
  {
    nodes := map[];
    invoked := [];
    var remaining := anims.Keys;
    ghost var visited: seq<nat> := [];
    while remaining != {}
      invariant remaining <= anims.Keys
      invariant SortedKeys(anims.Keys) == visited + SortedKeys(remaining)
      invariant nodes == NodesOf(anims, visited)
      invariant invoked == Invocations(anims, visited, fr)
      decreases remaining
    {
      MinExists(remaining);
      var key :| key in remaining && forall j :: j in remaining ==> key <= j;
      EnumerationStep(anims.Keys, visited, remaining, key);
      var anim := anims[key];
      if anim.node.Some? && anim.node.value.nodeId.Some? {
        nodes := nodes[anim.node.value.nodeId.value := anim.node.value];
      }
      if anim.hasFunc {
        invoked := invoked + [Invoke(key, fr)];
      }
      assert (visited + [key])[..|visited|] == visited;
      visited := visited + [key];
      remaining := remaining - {key};
    }
    assert visited == SortedKeys(anims.Keys);
  }

  /** The second loop of `_runFrames`: each collected node is drawn once, in
      `_id` order. */
  method DrawNodes(nodes: map<nat, Node>) returns (draws: seq<Effect>)
    ensures draws == Draws(SortedKeys(nodes.Keys))
  {
    draws := [];
    var toDraw := nodes.Keys;
    ghost var drawn: seq<nat> := [];
    while toDraw != {}
      invariant toDraw <= nodes.Keys
      invariant SortedKeys(nodes.Keys) == drawn + SortedKeys(toDraw)
      invariant draws == Draws(drawn)
      decreases toDraw
    {
      MinExists(toDraw);
      var id :| id in toDraw && forall j :: j in toDraw ==> id <= j;
      EnumerationStep(nodes.Keys, drawn, toDraw, id);
      draws := draws + [Draw(id)];
      assert (drawn + [id])[..|drawn|] == drawn;
      drawn := drawn + [id];
      toDraw := toDraw - {id};
    }
    assert drawn == SortedKeys(nodes.Keys);
  }

  /** The `frame` record, shared with every `func` and updated in place. */
  class FrameRecord {
    var time: int
    var timeDiff: int
    var lastTime: int

    constructor (now: int)
      ensures time == 0 && timeDiff == 0 && lastTime == now
    {
      time, timeDiff, lastTime := 0, 0, now;
    }

    function Info(): FrameInfo
      reads this
    {
      FrameInfo(time, timeDiff, lastTime)
    }
  }

  class Scheduler {
    var animations: map<nat, Anim>
    var animIdCounter: nat
    var animRunning: bool
    const frame: FrameRecord
    /** A callback has been requested from the platform and has not fired yet. */
    var tickPending: bool
    /** The `func` and `draw()` calls made so far, in order. */
    var effects: seq<Effect>
    /** The ids handed out so far. */
    ghost var issued: set<nat>

    ghost predicate Valid()
      reads this
    {
      && (forall k :: k in animations ==> animations[k].id == k)
      && (forall i :: i in issued ==> i < animIdCounter)
      && (tickPending ==> animRunning)
    }

    /** The initial state; `now` is the wall clock when the script loads. */
    constructor (now: int)
      ensures Valid() && fresh(frame)
      ensures animations == map[] && animIdCounter == 0 && !animRunning && !tickPending
      ensures frame.Info() == FrameInfo(0, 0, now) && effects == [] && issued == {}
    {
      animations := map[];
      animIdCounter := 0;
      animRunning := false;
      frame := new FrameRecord(now);
      tickPending := false;
      effects := [];
      issued := {};
    }

    /** `new Kinetic.Animation(config)`: the new animation takes the counter's
        value as its id, and the counter moves on, so no id is handed out twice. */
    method NewAnimation(node: Option<Node>, hasFunc: bool) returns (a: Anim)
      requires Valid()
      modifies this`animIdCounter, this`issued
      ensures Valid()
      ensures a == Anim(old(animIdCounter), node, hasFunc)
      ensures animIdCounter == old(animIdCounter) + 1
      ensures a.id !in old(issued) && issued == old(issued) + {a.id}
    {
      a := Anim(animIdCounter, node, hasFunc);
      issued := issued + {animIdCounter};
      animIdCounter := animIdCounter + 1;
    }

    /** `_addAnimation`: registers `a` under its id, leaving every other entry as it was. */
    method AddAnimation(a: Anim)
      requires Valid()
      modifies this`animations
      ensures Valid()
      ensures animations == old(animations)[a.id := a]
      ensures forall k :: k != a.id ==> (k in animations <==> k in old(animations))
      ensures forall k :: k != a.id && k in animations ==> animations[k] == old(animations)[k]
    {
      animations := animations[a.id := a];
    }

    /** `_removeAnimation`: deletes only the entry under `a`'s id. */
    method RemoveAnimation(a: Anim)
      requires Valid()
      modifies this`animations
      ensures Valid()
      ensures animations == old(animations) - {a.id}
      ensures a.id !in animations
      ensures forall k :: k != a.id ==> (k in animations <==> k in old(animations))
      ensures forall k :: k in animations ==> animations[k] == old(animations)[k]
    {
      animations := animations - {a.id};
    }

    /** `_hasAnimations`: whether the registry has any entry. */
    method HasAnimations() returns (r: bool)
      ensures r <==> exists k :: k in animations
    {
      if k :| k in animations {
        return true;
      }
      return false;
    }

    /** `_updateFrameObject`: `timeDiff` is the time since the previous tick,
        `lastTime` becomes `now` and `time` grows by `timeDiff`. */
    method UpdateFrameObject(now: int)
      modifies frame
      ensures frame.timeDiff == now - old(frame.lastTime)
      ensures frame.lastTime == now
      ensures frame.time == old(frame.time) + frame.timeDiff
      ensures frame.Info() == Advance(old(frame.Info()), now)
    {
      frame.timeDiff := now - frame.lastTime;
      frame.lastTime := now;
      frame.time := frame.time + frame.timeDiff;
    }

    /** `_runFrames`: visits the registry in key order, calling each `func` with
        the frame and collecting target nodes by `_id`, then draws each
        collected node once in `_id` order. `throwAt`, when it names one of
        the tick's calls, is the `func` or `draw()` that throws: the calls up
        to it have been made and the exception leaves `_runFrames`. */
    method RunFrames(throwAt: Option<nat>) returns (threw: bool)
      requires Valid()
      modifies this`effects
      ensures threw <==> Throws(TickEffects(animations, frame.Info()), throwAt)
      ensures effects == old(effects) + Performed(TickEffects(animations, frame.Info()), throwAt)
    {
      var fr := frame.Info();
      var nodes, invoked := CallFuncs(animations, fr);
      var draws := DrawNodes(nodes);
      var calls := invoked + draws;
      threw := throwAt.Some? && throwAt.value < |calls|;
      if threw {
        effects := effects + calls[..throwAt.value + 1];
      } else {
        effects := effects + calls;
      }
    }

    /** `_animationLoop`: on a non-empty registry, one tick (advance the clock,
        run the frames) and, unless a callback threw, a request for the next
        one; on an empty registry the scheduler goes idle with `lastTime` reset
        to 0 and `time` untouched. A throwing callback leaves the scheduler
        running with no tick requested. */
    method AnimationLoop(now: int, throwAt: Option<nat>) returns (threw: bool)
      requires Valid() && animRunning
      modifies this`animRunning, this`tickPending, this`effects, frame
      ensures Valid()
      ensures animations == map[] ==>
        && !threw && !animRunning && !tickPending
        && frame.lastTime == 0
        && frame.time == old(frame.time) && frame.timeDiff == old(frame.timeDiff)
        && effects == old(effects)
      ensures animations != map[] ==>
        && animRunning
        && frame.Info() == Advance(old(frame.Info()), now)
        && (threw <==> Throws(TickEffects(animations, frame.Info()), throwAt))
        && tickPending == (old(tickPending) || !threw)
        && effects == old(effects) + Performed(TickEffects(animations, frame.Info()), throwAt)
    {
      var busy := HasAnimations();
      if busy {
        UpdateFrameObject(now);
        threw := RunFrames(throwAt);
        if !threw {
          tickPending := true;
        }
      } else {
        threw := false;
        animRunning := false;
        tickPending := false;
        frame.lastTime := 0;
      }
    }

    /** The platform fires the requested frame callback, which runs `_animationLoop`. */
    method FrameCallback(now: int, throwAt: Option<nat>) returns (threw: bool)
      requires Valid() && tickPending
      modifies this`animRunning, this`tickPending, this`effects, frame
      ensures Valid()
      ensures animations == map[] ==>
        && !threw && !animRunning && !tickPending && frame.lastTime == 0
        && frame.time == old(frame.time) && frame.timeDiff == old(frame.timeDiff)
        && effects == old(effects)
      ensures animations != map[] ==>
        && animRunning
        && frame.Info() == Advance(old(frame.Info()), now)
        && (threw <==> Throws(TickEffects(animations, frame.Info()), throwAt))
        && tickPending == !threw
        && effects == old(effects) + Performed(TickEffects(animations, frame.Info()), throwAt)
    {
      tickPending := false;
      threw := AnimationLoop(now, throwAt);
    }

    /** `_handleAnimation`: when idle, start running and tick at once; when
        already running, only reset `lastTime` to 0. In particular a scheduler
        left running with no tick requested, after a callback threw, is never
        restarted here. */
    method HandleAnimation(now: int, throwAt: Option<nat>) returns (threw: bool)
      requires Valid()
      modifies this`animRunning, this`tickPending, this`effects, frame
      ensures Valid()
      ensures !old(animRunning) && animations == map[] ==>
        && !threw && !animRunning && !tickPending && frame.lastTime == 0
        && frame.time == old(frame.time) && frame.timeDiff == old(frame.timeDiff)
        && effects == old(effects)
      ensures !old(animRunning) && animations != map[] ==>
        && animRunning
        && frame.Info() == Advance(old(frame.Info()), now)
        && (threw <==> Throws(TickEffects(animations, frame.Info()), throwAt))
        && tickPending == !threw
        && effects == old(effects) + Performed(TickEffects(animations, frame.Info()), throwAt)
      ensures old(animRunning) ==>
        && !threw && animRunning && tickPending == old(tickPending)
        && frame.Info() == old(frame.Info()).(lastTime := 0)
        && effects == old(effects)
    {
      if !animRunning {
        animRunning := true;
        threw := AnimationLoop(now, throwAt);
      } else {
        threw := false;
        frame.lastTime := 0;
      }
    }
  }
}
