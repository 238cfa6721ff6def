// Heat propagation: the FIFO wavefront of `FlowField::build`
// (src/flowfield/mod.rs:116-150).

module Heat {
  import opened Grid

  /** The heat of a cell no wavefront has reached. */
  const Unreached: real := -1.0

  /** The heat of a cell; cells outside the grid read as the sentinel. */
  function HeatAt(heat: seq<seq<real>>, p: GridPos): real {
    if p.x < |heat| && p.y < |heat[p.x]| then heat[p.x][p.y] else Unreached
  }

  /** `heat[p.x][p.y] = v`. */
  function SetHeat(heat: seq<seq<real>>, p: GridPos, v: real): (h: seq<seq<real>>)
    requires p.x < |heat| && p.y < |heat[p.x]|
    ensures |h| == |heat| && forall x :: 0 <= x < |heat| ==> |h[x]| == |heat[x]|
    ensures HeatAt(h, p) == v
    ensures forall q :: q != p ==> HeatAt(h, q) == HeatAt(heat, q)
  {
    heat[p.x := heat[p.x][p.y := v]]
  }

  /** Every entry of the grid is the sentinel, as `build` leaves it before the wavefront. */
  predicate AllUnreached(heat: seq<seq<real>>, sizeX: nat, sizeY: nat) {
    IsGrid(heat, sizeX, sizeY) &&
    forall x, y :: 0 <= x < sizeX && 0 <= y < sizeY ==> heat[x][y] == Unreached
  }

  /** No value occurs twice in the sequence. */
  predicate Distinct(s: seq<GridPos>) {
    forall i, j :: 0 <= i < j < |s| ==> s[i] != s[j]
  }

  /** A walk the wavefront may follow: it starts at a source, and each later cell is a
      neighbour (in the sense of `neighbors`) of the one before it and is not a wall. */
  ghost predicate IsWalk(sizeX: nat, sizeY: nat, walls: set<GridPos>, sources: set<GridPos>, w: seq<GridPos>) {
    |w| > 0 && w[0] in sources &&
    forall k :: 0 < k < |w| ==> w[k] in Neighbors(sizeX, sizeY, w[k - 1]) && w[k] !in walls
  }

  /** Consecutive cells of the sequence are at most one step apart. */
  ghost predicate Steps(w: seq<GridPos>) {
    forall k :: 0 < k < |w| ==> Adjacent(w[k - 1], w[k])
  }

  /** The sum of the edge weights along a walk. */
  ghost function WalkCost(w: seq<GridPos>): real
    requires Steps(w)
    decreases |w|
  {
    if |w| <= 1 then 0.0 else WalkCost(w[..|w| - 1]) + Distance(w[|w| - 2], w[|w| - 1])
  }

  /** `c` can be reached from a source through non-wall neighbours. */
  ghost predicate Reachable(sizeX: nat, sizeY: nat, walls: set<GridPos>, sources: set<GridPos>, c: GridPos) {
    exists w :: IsWalk(sizeX, sizeY, walls, sources, w) && w[|w| - 1] == c
  }

  /** Every non-wall neighbour of a reached cell is reached: the wavefront stopped only
      because it had nowhere left to go. */
  ghost predicate HeatClosed(sizeX: nat, sizeY: nat, walls: set<GridPos>, heat: seq<seq<real>>) {
    forall p, q :: HeatAt(heat, p) != Unreached && q in Neighbors(sizeX, sizeY, p) && q !in walls ==>
      HeatAt(heat, q) != Unreached
  }

  /** Every reached cell's heat is the cost of some path from a source that ends there:
      a walk that visits no cell twice. */
  ghost predicate HeatIsWalkCost(sizeX: nat, sizeY: nat, walls: set<GridPos>, sources: set<GridPos>, heat: seq<seq<real>>) {
    forall p :: InBound(sizeX, sizeY, p) && HeatAt(heat, p) != Unreached ==>
      exists w :: IsWalk(sizeX, sizeY, walls, sources, w) && w[|w| - 1] == p && Distinct(w) &&
                  Steps(w) && WalkCost(w) == HeatAt(heat, p)
  }

  /** `walkTo[p]` is a path from a source to `p` whose cost is the heat of `p`. */
  ghost predicate Witnessed(sizeX: nat, sizeY: nat, walls: set<GridPos>, sources: set<GridPos>,
                            heat: seq<seq<real>>, walkTo: map<GridPos, seq<GridPos>>, p: GridPos) {
    p in walkTo && IsWalk(sizeX, sizeY, walls, sources, walkTo[p]) && walkTo[p][|walkTo[p]| - 1] == p &&
    Distinct(walkTo[p]) && Steps(walkTo[p]) && WalkCost(walkTo[p]) == HeatAt(heat, p)
  }

  /** Every cell on the recorded path to `p` is visited and has a heat no greater than
      that of `p`, so a relaxation that strictly lowers a cell below the heat of `cur`
      cannot meet that cell on the path to `cur`. */
  ghost predicate WalkBelow(heat: seq<seq<real>>, visited: set<GridPos>, walkTo: map<GridPos, seq<GridPos>>, p: GridPos) {
    p in walkTo &&
    forall k :: 0 <= k < |walkTo[p]| ==> walkTo[p][k] in visited && HeatAt(heat, walkTo[p][k]) <= HeatAt(heat, p)
  }

  /** Extending a walk by one non-wall neighbour of its last cell gives a walk whose cost
      grows by the weight of that last step. */
  lemma WalkExtend(sizeX: nat, sizeY: nat, walls: set<GridPos>, sources: set<GridPos>, w: seq<GridPos>, p: GridPos)
    requires IsWalk(sizeX, sizeY, walls, sources, w) && Steps(w)
    requires p in Neighbors(sizeX, sizeY, w[|w| - 1]) && p !in walls
    ensures IsWalk(sizeX, sizeY, walls, sources, w + [p]) && Steps(w + [p])
    ensures WalkCost(w + [p]) == WalkCost(w) + Distance(w[|w| - 1], p)
  {
    var v := w + [p];
    assert v[..|v| - 1] == w;
    assert forall k :: 0 <= k < |w| ==> v[k] == w[k];
    assert v[|w|] == p;
    assert IsWalk(sizeX, sizeY, walls, sources, v) by {
      forall k | 0 < k < |v| ensures v[k] in Neighbors(sizeX, sizeY, v[k - 1]) && v[k] !in walls {
        if k < |w| { assert v[k - 1] == w[k - 1]; }
      }
    }
    assert Steps(v) by {
      forall k | 0 < k < |v| ensures Adjacent(v[k - 1], v[k]) {
        if k < |w| { assert v[k - 1] == w[k - 1]; }
      }
    }
  }

  /** The heat of `p` after the dequeued cell `cur` has relaxed the cells of `ns`: a cell
      outside `ns` keeps its heat; a cell of `ns` not visited before gets the heat of `cur`
      plus the step's weight; a visited one keeps the smaller of the two. */
  function Relaxed(heat: seq<seq<real>>, visited: set<GridPos>, cur: GridPos, ns: set<GridPos>, p: GridPos): (r: real)
    requires p in ns ==> Adjacent(cur, p)
    ensures p in ns && p !in visited ==> r == HeatAt(heat, cur) + Distance(cur, p)
    ensures p in visited ==> r <= HeatAt(heat, p)
    ensures p in ns && p in visited && HeatAt(heat, cur) + Distance(cur, p) < HeatAt(heat, p) ==>
              r == HeatAt(heat, cur) + Distance(cur, p)
    ensures r == HeatAt(heat, p) || (p in ns && r == HeatAt(heat, cur) + Distance(cur, p))
  {
    if p !in ns then HeatAt(heat, p)
    else
      var v := HeatAt(heat, cur) + Distance(cur, p);
      if p !in visited || HeatAt(heat, p) > v then v else HeatAt(heat, p)
  }

  /** The body of `for neighbor in neighbors` for one neighbour `n` of the dequeued cell
      `cur`: `visited.insert(n)` reports whether `n` is new; a new cell gets the heat of
      `cur` plus the step's weight and is pushed, a visited one takes that value only when
      it is strictly smaller than its own. */
  method VisitNeighbor(sizeX: nat, sizeY: nat, heat: seq<seq<real>>, visited: set<GridPos>, queue: seq<GridPos>,
                       cur: GridPos, n: GridPos)
    returns (heat': seq<seq<real>>, visited': set<GridPos>, queue': seq<GridPos>, pushed: bool)
    requires IsGrid(heat, sizeX, sizeY)
    requires InBound(sizeX, sizeY, n) && Adjacent(cur, n)
    ensures IsGrid(heat', sizeX, sizeY)
    ensures pushed <==> n !in visited
    ensures visited' == visited + {n}
    ensures queue' == if pushed then queue + [n] else queue
    ensures forall p :: p != n ==> HeatAt(heat', p) == HeatAt(heat, p)
    ensures HeatAt(heat', n) == Relaxed(heat, visited, cur, {n}, n)
  {
    var d := Distance(n, cur);
    assert d == Distance(cur, n);
    pushed := n !in visited;
    visited' := visited + {n};
    heat', queue' := heat, queue;
    if pushed {
      heat' := SetHeat(heat, n, HeatAt(heat, cur) + d);
      queue' := queue + [n];
    } else if HeatAt(heat, n) > HeatAt(heat, cur) + d {
      heat' := SetHeat(heat, n, HeatAt(heat, cur) + d);
    }
  }

  /** The loop `for neighbor in neighbors` for the dequeued cell `cur`, where `ns` holds
      its non-wall neighbours. Every cell of `ns` ends up visited; the ones not visited
      before are pushed, each once, and given the heat of `cur` plus the step's weight; a
      visited one keeps the smaller of its heat and that value. `added` is what was pushed. */
  method ExpandCell(sizeX: nat, sizeY: nat, heat: seq<seq<real>>, visited: set<GridPos>, queue: seq<GridPos>,
                    cur: GridPos, ns: set<GridPos>)
    returns (heat': seq<seq<real>>, visited': set<GridPos>, queue': seq<GridPos>, ghost added: seq<GridPos>)
    requires IsGrid(heat, sizeX, sizeY)
    requires InBound(sizeX, sizeY, cur)
    requires forall p :: p in ns ==> InBound(sizeX, sizeY, p) && Adjacent(cur, p)
    ensures IsGrid(heat', sizeX, sizeY)
    ensures visited' == visited + ns
    ensures queue' == queue + added
    ensures multiset(added) == multiset(ns - visited)
    ensures forall p :: HeatAt(heat', p) == Relaxed(heat, visited, cur, ns, p)
  {
    heat', visited', queue' := heat, visited, queue;
    added := [];
    ghost var done: set<GridPos> := {};
    var rest := ns;
    while rest != {}
      invariant rest <= ns && done == ns - rest
      invariant IsGrid(heat', sizeX, sizeY)
      invariant visited' == visited + done
      invariant queue' == queue + added
      invariant multiset(added) == multiset(done - visited)
      invariant forall p :: HeatAt(heat', p) == Relaxed(heat, visited, cur, done, p)
      decreases rest
    {
      var n :| n in rest;
      ghost var h0, v0 := heat', visited';
      var pushed;
      heat', visited', queue', pushed := VisitNeighbor(sizeX, sizeY, heat', visited', queue', cur, n);
      RelaxStep(heat, h0, heat', visited, cur, done, n);
      ghost var a0 := added;
      if pushed {
        added := added + [n];
      }
      PushedStep(visited, done, a0, added, n);
      rest := rest - {n};
      done := done + {n};
    }
    assert done == ns;
  }

  /** What relaxing `ns` from `cur` does to the heat grid: a visited cell's heat never
      grows, and every cell whose heat changed is a relaxed cell whose new heat is that of
      `cur` plus the step's weight. */
  lemma RelaxedEffect(heat: seq<seq<real>>, heat': seq<seq<real>>, visited: set<GridPos>, cur: GridPos, ns: set<GridPos>)
    requires forall p :: p in ns ==> Adjacent(cur, p)
    requires forall p :: HeatAt(heat', p) == Relaxed(heat, visited, cur, ns, p)
    ensures forall p :: p in visited ==> HeatAt(heat', p) <= HeatAt(heat, p)
    ensures forall p :: HeatAt(heat', p) != HeatAt(heat, p) ==>
              p in ns && HeatAt(heat', p) == HeatAt(heat, cur) + Distance(cur, p)
  {
    forall p ensures p in visited ==> HeatAt(heat', p) <= HeatAt(heat, p) {
      assert HeatAt(heat', p) == Relaxed(heat, visited, cur, ns, p);
    }
  }

  /** One step of `ExpandCell`'s push record: `n` is appended exactly when it was not
      visited, so the record stays the multiset of relaxed cells not visited before. */
  lemma PushedStep(visited: set<GridPos>, done: set<GridPos>, added: seq<GridPos>, added': seq<GridPos>, n: GridPos)
    requires n !in done && multiset(added) == multiset(done - visited)
    requires added' == if n !in visited then added + [n] else added
    ensures multiset(added') == multiset((done + {n}) - visited)
  {
    if n !in visited {
      assert (done + {n}) - visited == (done - visited) + {n};
    } else {
      assert (done + {n}) - visited == done - visited;
    }
  }

  /** One step of `ExpandCell`: relaxing one more neighbour `n` on top of the cells
      already relaxed gives the relaxation over both. */
  lemma RelaxStep(heat: seq<seq<real>>, h0: seq<seq<real>>, h1: seq<seq<real>>, visited: set<GridPos>,
                  cur: GridPos, done: set<GridPos>, n: GridPos)
    requires forall p :: p in done ==> Adjacent(cur, p)
    requires Adjacent(cur, n) && n !in done
    requires forall p :: HeatAt(h0, p) == Relaxed(heat, visited, cur, done, p)
    requires forall p :: p != n ==> HeatAt(h1, p) == HeatAt(h0, p)
    requires HeatAt(h1, n) == Relaxed(h0, visited + done, cur, {n}, n)
    ensures forall p :: HeatAt(h1, p) == Relaxed(heat, visited, cur, done + {n}, p)
  {
    assert HeatAt(h0, cur) == HeatAt(heat, cur) by {
      assert HeatAt(h0, cur) == Relaxed(heat, visited, cur, done, cur);
    }
    assert HeatAt(h0, n) == HeatAt(heat, n) by {
      assert HeatAt(h0, n) == Relaxed(heat, visited, cur, done, n);
    }
    forall p | p != n ensures HeatAt(h1, p) == Relaxed(heat, visited, cur, done + {n}, p) {
      assert HeatAt(h0, p) == Relaxed(heat, visited, cur, done, p);
    }
  }

  /** The seeding loop of the heat phase: every source gets heat 0, is marked visited
      and is pushed, in whatever order the set yields them. */
  method SeedSources(sizeX: nat, sizeY: nat, sources: set<GridPos>, heat0: seq<seq<real>>)
    returns (heat: seq<seq<real>>, visited: set<GridPos>, queue: seq<GridPos>)
    requires AllUnreached(heat0, sizeX, sizeY)
    requires forall s :: s in sources ==> InBound(sizeX, sizeY, s)
    ensures IsGrid(heat, sizeX, sizeY)
    ensures visited == sources
    ensures multiset(queue) == multiset(sources)
    ensures forall p :: InBound(sizeX, sizeY, p) ==> (p in sources <==> HeatAt(heat, p) != Unreached)
    ensures forall p :: p in sources ==> HeatAt(heat, p) == 0.0
  {
    heat := heat0;
    queue := [];
    visited := {};
    var rest := sources;
    while rest != {}
      invariant rest <= sources
      invariant IsGrid(heat, sizeX, sizeY)
      invariant visited == sources - rest
      invariant forall p :: InBound(sizeX, sizeY, p) ==> (p in visited <==> HeatAt(heat, p) != Unreached)
      invariant forall p :: p in visited ==> HeatAt(heat, p) == 0.0
      invariant multiset(queue) == multiset(visited)
      decreases rest
    {
      var s :| s in rest;
      heat := SetHeat(heat, s, 0.0);
      queue := queue + [s];
      assert visited + {s} == sources - (rest - {s});
      visited := visited + {s};
      rest := rest - {s};
    }
  }

  /** The heat loop of `build`. The sources are seeded with heat 0 and pushed; then
      cells are dequeued in FIFO order and expanded until the queue is empty. `pushes`
      records every push in order and `rounds` counts the dequeues. */
  method PropagateHeat(sizeX: nat, sizeY: nat, walls: set<GridPos>, sources: set<GridPos>, heat0: seq<seq<real>>)
    returns (heat: seq<seq<real>>, ghost pushes: seq<GridPos>, ghost rounds: nat)
    requires AllUnreached(heat0, sizeX, sizeY)
    requires forall s :: s in sources ==> InBound(sizeX, sizeY, s)
    ensures IsGrid(heat, sizeX, sizeY)
    ensures forall s :: s in sources ==> HeatAt(heat, s) == 0.0
    ensures forall p :: InBound(sizeX, sizeY, p) ==> HeatAt(heat, p) == Unreached || HeatAt(heat, p) >= 0.0
    ensures forall p :: p in walls && p !in sources ==> HeatAt(heat, p) == Unreached
    ensures HeatClosed(sizeX, sizeY, walls, heat)
    ensures HeatIsWalkCost(sizeX, sizeY, walls, sources, heat)
    ensures Distinct(pushes) && |pushes| <= sizeX * sizeY && rounds == |pushes|
    ensures forall p :: InBound(sizeX, sizeY, p) ==> (p in pushes <==> HeatAt(heat, p) != Unreached)
    ensures forall p :: InBound(sizeX, sizeY, p) ==>
              (HeatAt(heat, p) != Unreached <==> Reachable(sizeX, sizeY, walls, sources, p))
  {
    var visited, queue;
    heat, visited, queue := SeedSources(sizeX, sizeY, sources, heat0);
    ghost var walkTo := SourceWalks(sizeX, sizeY, walls, sources, heat);
    SeededWavefront(sizeX, sizeY, walls, sources, heat, visited, queue, walkTo);
    ghost var reached;
    heat, reached, pushes, rounds, walkTo := RunWavefront(sizeX, sizeY, walls, sources, heat, visited, queue, walkTo);
    WavefrontDone(sizeX, sizeY, walls, sources, heat, reached, pushes, rounds, walkTo);
    ClosedWhenDone(sizeX, sizeY, walls, sources, heat, reached, pushes, rounds, walkTo);
    WitnessedWhenDone(sizeX, sizeY, walls, sources, heat, reached, pushes, rounds, walkTo);
    forall p | InBound(sizeX, sizeY, p)
      ensures HeatAt(heat, p) != Unreached <==> Reachable(sizeX, sizeY, walls, sources, p)
    {
      ReachedIffReachable(sizeX, sizeY, walls, sources, heat, p);
    }
  }

  /** The `while !queue.is_empty()` loop: starting from the seeded
      state, cells are dequeued in FIFO order and expanded until the queue is empty. The
      invariant holds throughout, and at the end the queue is empty. */
  method RunWavefront(sizeX: nat, sizeY: nat, walls: set<GridPos>, sources: set<GridPos>,
                      heat0: seq<seq<real>>, visited0: set<GridPos>, queue0: seq<GridPos>,
                      ghost walkTo0: map<GridPos, seq<GridPos>>)
    returns (heat: seq<seq<real>>, ghost visited: set<GridPos>, ghost pushes: seq<GridPos>, ghost rounds: nat,
             ghost walkTo: map<GridPos, seq<GridPos>>)
    requires Wavefront(sizeX, sizeY, walls, sources, heat0, visited0, queue0, queue0, 0, walkTo0)
    ensures Wavefront(sizeX, sizeY, walls, sources, heat, visited, [], pushes, rounds, walkTo)
  {
    heat := heat0;
    var seen := visited0;
    var queue := queue0;
    pushes, rounds, walkTo := queue0, 0, walkTo0;
    while queue != []
      invariant Wavefront(sizeX, sizeY, walls, sources, heat, seen, queue, pushes, rounds, walkTo)
      decreases sizeX * sizeY - rounds
    {
      var cur := queue[0];
      ghost var heatBefore, seenBefore, queueBefore, walkBefore := heat, seen, queue, walkTo;
      HeadReached(sizeX, sizeY, walls, sources, heat, seen, queue, pushes, rounds, walkTo);
      queue := queue[1..];
      var ns := Neighbors(sizeX, sizeY, cur) - walls;
      ghost var added;
      heat, seen, queue, added := ExpandCell(sizeX, sizeY, heat, seen, queue, cur, ns);
      assert Round(sizeX, sizeY, walls, heatBefore, seenBefore, queueBefore, heat, seen, queue, added);
      walkTo := RoundKeeps(sizeX, sizeY, walls, sources, heatBefore, seenBefore, queueBefore, pushes, rounds, walkBefore,
                           heat, seen, queue, added);
      pushes := pushes + added;
      rounds := rounds + 1;
    }
    visited := seen;
  }

  /** The loop invariant of the heat phase. The visited cells are exactly the reached
      ones (`HeatFacts`); `pushes` holds each of them once, in push order, and the queue
      is the part of it not yet dequeued; every cell out of the queue has all its non-wall
      neighbours visited; every visited cell is reached by a witnessed path, along which no
      cell is hotter than its end. */
  ghost predicate Wavefront(sizeX: nat, sizeY: nat, walls: set<GridPos>, sources: set<GridPos>,
                            heat: seq<seq<real>>, visited: set<GridPos>, queue: seq<GridPos>,
                            pushes: seq<GridPos>, rounds: nat, walkTo: map<GridPos, seq<GridPos>>) {
    IsGrid(heat, sizeX, sizeY) &&
    HeatFacts(sizeX, sizeY, walls, sources, heat, visited) &&
    multiset(pushes) == multiset(visited) &&
    rounds + |queue| == |pushes| && queue == pushes[rounds..] &&
    |visited| <= sizeX * sizeY &&
    (forall p :: p in visited && p !in queue ==> Expanded(sizeX, sizeY, walls, visited, p)) &&
    WalksRecorded(sizeX, sizeY, walls, sources, heat, visited, walkTo)
  }

  /** Every visited cell is reached by a witnessed path, along which no cell is hotter
      than its end. */
  ghost predicate WalksRecorded(sizeX: nat, sizeY: nat, walls: set<GridPos>, sources: set<GridPos>,
                                heat: seq<seq<real>>, visited: set<GridPos>, walkTo: map<GridPos, seq<GridPos>>) {
    (forall p :: p in visited ==> Witnessed(sizeX, sizeY, walls, sources, heat, walkTo, p)) &&
    (forall p :: p in visited ==> WalkBelow(heat, visited, walkTo, p))
  }

  /** The invariant holds once the sources are seeded. */
  lemma SeededWavefront(sizeX: nat, sizeY: nat, walls: set<GridPos>, sources: set<GridPos>,
                        heat: seq<seq<real>>, visited: set<GridPos>, queue: seq<GridPos>, walkTo: map<GridPos, seq<GridPos>>)
    requires forall s :: s in sources ==> InBound(sizeX, sizeY, s)
    requires IsGrid(heat, sizeX, sizeY)
    requires visited == sources
    requires multiset(queue) == multiset(sources)
    requires forall p :: InBound(sizeX, sizeY, p) ==> (p in sources <==> HeatAt(heat, p) != Unreached)
    requires forall p :: p in sources ==> HeatAt(heat, p) == 0.0
    requires forall p :: p in sources ==> Witnessed(sizeX, sizeY, walls, sources, heat, walkTo, p)
    requires forall p :: p in sources ==> WalkBelow(heat, sources, walkTo, p)
    ensures Wavefront(sizeX, sizeY, walls, sources, heat, visited, queue, queue, 0, walkTo)
  {
    CellSetBound(visited, sizeX, sizeY);
    assert queue[0..] == queue;
    forall p | p in visited ensures p in queue {
      assert p in multiset(queue);
    }
  }

  /** The cell at the head of the queue is visited, lies in the grid and has a heat. */
  lemma HeadReached(sizeX: nat, sizeY: nat, walls: set<GridPos>, sources: set<GridPos>,
                    heat: seq<seq<real>>, visited: set<GridPos>, queue: seq<GridPos>,
                    pushes: seq<GridPos>, rounds: nat, walkTo: map<GridPos, seq<GridPos>>)
    requires Wavefront(sizeX, sizeY, walls, sources, heat, visited, queue, pushes, rounds, walkTo)
    requires queue != []
    ensures queue[0] == pushes[rounds] && queue[0] in visited
    ensures InBound(sizeX, sizeY, queue[0]) && HeatAt(heat, queue[0]) >= 0.0
    ensures rounds < sizeX * sizeY
  {
    assert queue[0] == pushes[rounds];
    assert queue[0] in multiset(pushes);
    assert |multiset(pushes)| == |pushes|;
  }

  /** One round of the heat loop: the head `queue[0]` is dequeued and its non-wall
      neighbours relaxed, which is what `ExpandCell` promises. */
  ghost predicate Round(sizeX: nat, sizeY: nat, walls: set<GridPos>,
                        heat: seq<seq<real>>, visited: set<GridPos>, queue: seq<GridPos>,
                        heat': seq<seq<real>>, visited': set<GridPos>, queue': seq<GridPos>, added: seq<GridPos>) {
    queue != [] &&
    var ns := Neighbors(sizeX, sizeY, queue[0]) - walls;
    (forall p :: p in ns ==> Adjacent(queue[0], p)) &&
    IsGrid(heat', sizeX, sizeY) &&
    visited' == visited + ns &&
    queue' == queue[1..] + added &&
    multiset(added) == multiset(ns - visited) &&
    forall p :: HeatAt(heat', p) == Relaxed(heat, visited, queue[0], ns, p)
  }

  /** A round keeps the invariant, with the new pushes appended to the record, one more
      dequeue counted and the walks that `RoundWalks` supplies. */
  lemma RoundKeeps(sizeX: nat, sizeY: nat, walls: set<GridPos>, sources: set<GridPos>,
                   heat: seq<seq<real>>, visited: set<GridPos>, queue: seq<GridPos>,
                   pushes: seq<GridPos>, rounds: nat, walkTo: map<GridPos, seq<GridPos>>,
                   heat': seq<seq<real>>, visited': set<GridPos>, queue': seq<GridPos>, added: seq<GridPos>)
    returns (walkTo': map<GridPos, seq<GridPos>>)
    requires Wavefront(sizeX, sizeY, walls, sources, heat, visited, queue, pushes, rounds, walkTo)
    requires Round(sizeX, sizeY, walls, heat, visited, queue, heat', visited', queue', added)
    ensures Wavefront(sizeX, sizeY, walls, sources, heat', visited', queue', pushes + added, rounds + 1, walkTo')
  {
    HeadReached(sizeX, sizeY, walls, sources, heat, visited, queue, pushes, rounds, walkTo);
    walkTo' := RoundWalks(sizeX, sizeY, walls, sources, heat, visited, queue, walkTo, heat', visited', queue', added);
    RoundHeat(sizeX, sizeY, walls, sources, heat, visited, queue, pushes, rounds, walkTo, heat', visited', queue', added);
    RoundPushes(sizeX, sizeY, walls, sources, heat, visited, queue, pushes, rounds, walkTo, heat', visited', queue', added);
    RoundSettled(sizeX, sizeY, walls, sources, heat, visited, queue, pushes, rounds, walkTo, heat', visited', queue', added);
  }

  /** A round keeps the heat facts of the invariant. */
  lemma RoundHeat(sizeX: nat, sizeY: nat, walls: set<GridPos>, sources: set<GridPos>,
                  heat: seq<seq<real>>, visited: set<GridPos>, queue: seq<GridPos>,
                  pushes: seq<GridPos>, rounds: nat, walkTo: map<GridPos, seq<GridPos>>,
                  heat': seq<seq<real>>, visited': set<GridPos>, queue': seq<GridPos>, added: seq<GridPos>)
    requires Wavefront(sizeX, sizeY, walls, sources, heat, visited, queue, pushes, rounds, walkTo)
    requires Round(sizeX, sizeY, walls, heat, visited, queue, heat', visited', queue', added)
    ensures IsGrid(heat', sizeX, sizeY) && HeatFacts(sizeX, sizeY, walls, sources, heat', visited')
  {
    HeadReached(sizeX, sizeY, walls, sources, heat, visited, queue, pushes, rounds, walkTo);
    HeatStep(sizeX, sizeY, walls, sources, heat, heat', visited, visited', queue[0], Neighbors(sizeX, sizeY, queue[0]) - walls);
  }

  /** A round keeps the push record: the dequeued cell leaves the front of the queue,
      the newly pushed cells are exactly the new visited ones, each once, and the queue is
      still the unexpanded tail of the record. */
  lemma RoundPushes(sizeX: nat, sizeY: nat, walls: set<GridPos>, sources: set<GridPos>,
                  heat: seq<seq<real>>, visited: set<GridPos>, queue: seq<GridPos>,
                  pushes: seq<GridPos>, rounds: nat, walkTo: map<GridPos, seq<GridPos>>,
                  heat': seq<seq<real>>, visited': set<GridPos>, queue': seq<GridPos>, added: seq<GridPos>)
    requires Wavefront(sizeX, sizeY, walls, sources, heat, visited, queue, pushes, rounds, walkTo)
    requires Round(sizeX, sizeY, walls, heat, visited, queue, heat', visited', queue', added)
    ensures multiset(pushes + added) == multiset(visited')
    ensures rounds + 1 + |queue'| == |pushes + added| && queue' == (pushes + added)[rounds + 1..]
    ensures |visited'| <= sizeX * sizeY
  {
    var ns := Neighbors(sizeX, sizeY, queue[0]) - walls;
    RoundHeat(sizeX, sizeY, walls, sources, heat, visited, queue, pushes, rounds, walkTo, heat', visited', queue', added);
    PushRecordStep(sizeX, sizeY, visited, visited', queue, queue', pushes, added, rounds, ns);
  }

  /** A round keeps the expansion record: the dequeued cell now has all its non-wall
      neighbours visited, and every other cell out of the queue was out of it before. */
  lemma RoundSettled(sizeX: nat, sizeY: nat, walls: set<GridPos>, sources: set<GridPos>,
                  heat: seq<seq<real>>, visited: set<GridPos>, queue: seq<GridPos>,
                  pushes: seq<GridPos>, rounds: nat, walkTo: map<GridPos, seq<GridPos>>,
                  heat': seq<seq<real>>, visited': set<GridPos>, queue': seq<GridPos>, added: seq<GridPos>)
    requires Wavefront(sizeX, sizeY, walls, sources, heat, visited, queue, pushes, rounds, walkTo)
    requires Round(sizeX, sizeY, walls, heat, visited, queue, heat', visited', queue', added)
    ensures forall p :: p in visited' && p !in queue' ==> Expanded(sizeX, sizeY, walls, visited', p)
  {
    SettledStep(sizeX, sizeY, walls, visited, visited', queue, queue', added);
  }

  /** A round keeps every visited cell witnessed: `ExtendWalks` supplies the new walks. */
  lemma RoundWalks(sizeX: nat, sizeY: nat, walls: set<GridPos>, sources: set<GridPos>,
                  heat: seq<seq<real>>, visited: set<GridPos>, queue: seq<GridPos>, walkTo: map<GridPos, seq<GridPos>>,
                  heat': seq<seq<real>>, visited': set<GridPos>, queue': seq<GridPos>, added: seq<GridPos>)
    returns (walkTo': map<GridPos, seq<GridPos>>)
    requires queue != [] && queue[0] in visited
    requires WalksRecorded(sizeX, sizeY, walls, sources, heat, visited, walkTo)
    requires Round(sizeX, sizeY, walls, heat, visited, queue, heat', visited', queue', added)
    ensures WalksRecorded(sizeX, sizeY, walls, sources, heat', visited', walkTo')
  {
    walkTo' := ExtendWalks(sizeX, sizeY, walls, sources, heat, heat', visited, visited', walkTo, queue[0],
                           Neighbors(sizeX, sizeY, queue[0]) - walls);
  }

  /** When the queue is empty the invariant gives the bookkeeping promises of the heat
      phase: every cell was pushed once and dequeued once. */
  lemma WavefrontDone(sizeX: nat, sizeY: nat, walls: set<GridPos>, sources: set<GridPos>,
                      heat: seq<seq<real>>, visited: set<GridPos>,
                      pushes: seq<GridPos>, rounds: nat, walkTo: map<GridPos, seq<GridPos>>)
    requires Wavefront(sizeX, sizeY, walls, sources, heat, visited, [], pushes, rounds, walkTo)
    ensures IsGrid(heat, sizeX, sizeY)
    ensures forall s :: s in sources ==> HeatAt(heat, s) == 0.0
    ensures forall p :: InBound(sizeX, sizeY, p) ==> HeatAt(heat, p) == Unreached || HeatAt(heat, p) >= 0.0
    ensures forall p :: p in walls && p !in sources ==> HeatAt(heat, p) == Unreached
    ensures Distinct(pushes) && |pushes| <= sizeX * sizeY && rounds == |pushes|
    ensures forall p :: InBound(sizeX, sizeY, p) ==> (p in pushes <==> HeatAt(heat, p) != Unreached)
  {
    MultisetOfSet(pushes, visited);
  }

  /** When the queue is empty every visited cell has been dequeued and expanded, so the
      heat field is closed under non-wall neighbours. */
  lemma ClosedWhenDone(sizeX: nat, sizeY: nat, walls: set<GridPos>, sources: set<GridPos>,
                       heat: seq<seq<real>>, visited: set<GridPos>,
                       pushes: seq<GridPos>, rounds: nat, walkTo: map<GridPos, seq<GridPos>>)
    requires Wavefront(sizeX, sizeY, walls, sources, heat, visited, [], pushes, rounds, walkTo)
    ensures HeatClosed(sizeX, sizeY, walls, heat)
  {
    forall p, q | HeatAt(heat, p) != Unreached && q in Neighbors(sizeX, sizeY, p) && q !in walls
      ensures HeatAt(heat, q) != Unreached
    {
      assert InBound(sizeX, sizeY, p);
      assert Expanded(sizeX, sizeY, walls, visited, p);
    }
  }

  /** When the queue is empty every reached cell's heat is the cost of a path to it. */
  lemma WitnessedWhenDone(sizeX: nat, sizeY: nat, walls: set<GridPos>, sources: set<GridPos>,
                          heat: seq<seq<real>>, visited: set<GridPos>,
                          pushes: seq<GridPos>, rounds: nat, walkTo: map<GridPos, seq<GridPos>>)
    requires Wavefront(sizeX, sizeY, walls, sources, heat, visited, [], pushes, rounds, walkTo)
    ensures HeatIsWalkCost(sizeX, sizeY, walls, sources, heat)
  {
    forall p | InBound(sizeX, sizeY, p) && HeatAt(heat, p) != Unreached
      ensures exists w :: IsWalk(sizeX, sizeY, walls, sources, w) && w[|w| - 1] == p && Distinct(w) &&
                          Steps(w) && WalkCost(w) == HeatAt(heat, p)
    {
      assert Witnessed(sizeX, sizeY, walls, sources, heat, walkTo, p);
      var w := walkTo[p];
      assert IsWalk(sizeX, sizeY, walls, sources, w) && w[|w| - 1] == p && Distinct(w) &&
             Steps(w) && WalkCost(w) == HeatAt(heat, p);
    }
  }

  /** The walks of the seeded field: each source is reached by the one-cell walk. */
  lemma SourceWalks(sizeX: nat, sizeY: nat, walls: set<GridPos>, sources: set<GridPos>, heat: seq<seq<real>>)
    returns (walkTo: map<GridPos, seq<GridPos>>)
    requires forall p :: p in sources ==> HeatAt(heat, p) == 0.0
    ensures forall p :: p in sources ==> Witnessed(sizeX, sizeY, walls, sources, heat, walkTo, p)
    ensures forall p :: p in sources ==> WalkBelow(heat, sources, walkTo, p)
  {
    walkTo := map p | p in sources :: [p];
  }

  /** The invariants of the wavefront about the heat grid: the visited cells lie in the
      grid and are exactly the reached ones, with non-negative heat; the sources are
      visited with heat 0; only sources may be visited walls. */
  ghost predicate HeatFacts(sizeX: nat, sizeY: nat, walls: set<GridPos>, sources: set<GridPos>,
                            heat: seq<seq<real>>, visited: set<GridPos>) {
    (forall p :: p in visited ==> InBound(sizeX, sizeY, p)) &&
    (forall p :: InBound(sizeX, sizeY, p) ==> (p in visited <==> HeatAt(heat, p) != Unreached)) &&
    (forall p :: p in visited ==> HeatAt(heat, p) >= 0.0) &&
    sources <= visited && (forall s :: s in sources ==> HeatAt(heat, s) == 0.0) &&
    (forall p :: p in visited && p !in sources ==> p !in walls)
  }

  /** Every non-wall neighbour of `c` is visited. */
  ghost predicate Expanded(sizeX: nat, sizeY: nat, walls: set<GridPos>, visited: set<GridPos>, c: GridPos) {
    forall q :: q in Neighbors(sizeX, sizeY, c) && q !in walls ==> q in visited
  }

  /** A sequence holding each member of a set exactly once is duplicate-free, as long
      as the set, and holds exactly the set's members. */
  lemma MultisetOfSet(s: seq<GridPos>, S: set<GridPos>)
    requires multiset(s) == multiset(S)
    ensures Distinct(s) && |s| == |S| && forall p :: p in s <==> p in S
  {
    assert |multiset(s)| == |s|;
    forall i, j | 0 <= i < j < |s| ensures s[i] != s[j] {
      assert s == s[..j] + s[j..];
      assert s[..j][i] == s[i] && s[j..][0] == s[j];
      assert multiset(s)[s[j]] == multiset(s[..j])[s[j]] + multiset(s[j..])[s[j]];
      assert multiset(s)[s[j]] <= 1;
      assert multiset(s[..j])[s[i]] >= 1 && multiset(s[j..])[s[j]] >= 1;
    }
    forall p ensures p in s <==> p in S {
      assert p in s <==> p in multiset(s);
      assert p in S <==> p in multiset(S);
    }
  }

  /** The heat facts of the wavefront carried across one expansion. */
  lemma HeatStep(sizeX: nat, sizeY: nat, walls: set<GridPos>, sources: set<GridPos>,
                 heat: seq<seq<real>>, heat': seq<seq<real>>, visited: set<GridPos>, visited': set<GridPos>,
                 cur: GridPos, ns: set<GridPos>)
    requires IsGrid(heat, sizeX, sizeY) && IsGrid(heat', sizeX, sizeY)
    requires cur in visited && ns == Neighbors(sizeX, sizeY, cur) - walls
    requires visited' == visited + ns
    requires HeatFacts(sizeX, sizeY, walls, sources, heat, visited)
    requires forall p :: HeatAt(heat', p) == Relaxed(heat, visited, cur, ns, p)
    ensures HeatFacts(sizeX, sizeY, walls, sources, heat', visited')
  {
    forall p | p in ns ensures HeatAt(heat', p) >= 0.0 {
      assert HeatAt(heat', p) == Relaxed(heat, visited, cur, ns, p);
    }
    forall s | s in sources ensures HeatAt(heat', s) == 0.0 {
      assert HeatAt(heat', s) == Relaxed(heat, visited, cur, ns, s);
    }
    forall p | InBound(sizeX, sizeY, p) ensures p in visited' <==> HeatAt(heat', p) != Unreached {
      assert HeatAt(heat', p) == Relaxed(heat, visited, cur, ns, p);
    }
  }

  /** The push record across one round: the newly pushed cells are exactly the new
      visited ones, each once, and the queue is still the unexpanded tail of the record. */
  lemma PushRecordStep(sizeX: nat, sizeY: nat, visited: set<GridPos>, visited': set<GridPos>,
                       queue: seq<GridPos>, queue': seq<GridPos>, pushes: seq<GridPos>, added: seq<GridPos>,
                       rounds: nat, ns: set<GridPos>)
    requires multiset(pushes) == multiset(visited)
    requires rounds + |queue| == |pushes| && queue == pushes[rounds..] && queue != []
    requires visited' == visited + ns && forall p :: p in visited' ==> InBound(sizeX, sizeY, p)
    requires queue' == queue[1..] + added
    requires multiset(added) == multiset(ns - visited)
    ensures multiset(pushes + added) == multiset(visited')
    ensures rounds + 1 + |queue'| == |pushes + added| && queue' == (pushes + added)[rounds + 1..]
    ensures |visited'| <= sizeX * sizeY
  {
    assert visited' == visited + (ns - visited);
    assert |multiset(added)| == |added|;
    CellSetBound(visited', sizeX, sizeY);
    assert queue[1..] == pushes[rounds + 1..];
    assert (pushes + added)[rounds + 1..] == pushes[rounds + 1..] + added;
  }

  /** The expansion record across one round: the dequeued `queue[0]` now has all its
      non-wall neighbours visited, and every other cell out of the queue was out of it
      before. */
  lemma SettledStep(sizeX: nat, sizeY: nat, walls: set<GridPos>, visited: set<GridPos>, visited': set<GridPos>,
                    queue: seq<GridPos>, queue': seq<GridPos>, added: seq<GridPos>)
    requires forall p :: p in visited && p !in queue ==> Expanded(sizeX, sizeY, walls, visited, p)
    requires queue != []
    requires visited' == visited + (Neighbors(sizeX, sizeY, queue[0]) - walls)
    requires queue' == queue[1..] + added
    requires multiset(added) == multiset((Neighbors(sizeX, sizeY, queue[0]) - walls) - visited)
    ensures forall p :: p in visited' && p !in queue' ==> Expanded(sizeX, sizeY, walls, visited', p)
  {
    forall p | p in visited' && p !in queue' ensures Expanded(sizeX, sizeY, walls, visited', p) {
      if p != queue[0] {
        assert p !in visited ==> p in multiset(added);
        assert p !in queue[1..];
        assert queue == [queue[0]] + queue[1..];
        assert Expanded(sizeX, sizeY, walls, visited, p);
      }
    }
  }

  /** The walk bookkeeping of one expansion: a cell that was new, or whose heat was
      strictly lowered to the heat of `cur` plus the step's weight, is reached by `cur`'s
      path extended to it; every other visited cell kept both its heat and its path. Such
      a cell is not on `cur`'s path: a new cell is not visited, and every cell on the path
      is at most as hot as `cur`. */
  lemma ExtendWalks(sizeX: nat, sizeY: nat, walls: set<GridPos>, sources: set<GridPos>,
                    heat: seq<seq<real>>, heat': seq<seq<real>>, visited: set<GridPos>, visited': set<GridPos>,
                    walkTo: map<GridPos, seq<GridPos>>, cur: GridPos, ns: set<GridPos>)
    returns (walkTo': map<GridPos, seq<GridPos>>)
    requires cur in visited && ns == Neighbors(sizeX, sizeY, cur) - walls
    requires visited' == visited + ns
    requires forall p :: p in visited ==> Witnessed(sizeX, sizeY, walls, sources, heat, walkTo, p)
    requires forall p :: p in visited ==> WalkBelow(heat, visited, walkTo, p)
    requires forall p :: HeatAt(heat', p) == Relaxed(heat, visited, cur, ns, p)
    ensures forall p :: p in visited' ==> Witnessed(sizeX, sizeY, walls, sources, heat', walkTo', p)
    ensures forall p :: p in visited' ==> WalkBelow(heat', visited', walkTo', p)
  {
    var hc := HeatAt(heat, cur);
    walkTo' := map p | p in visited' ::
      if p in ns && (p !in visited || HeatAt(heat, p) > hc + Distance(cur, p)) then walkTo[cur] + [p] else walkTo[p];
    forall p | p in visited'
      ensures Witnessed(sizeX, sizeY, walls, sources, heat', walkTo', p) && WalkBelow(heat', visited', walkTo', p)
    {
      assert HeatAt(heat', p) == Relaxed(heat, visited, cur, ns, p);
      if p in ns && (p !in visited || HeatAt(heat, p) > hc + Distance(cur, p)) {
        ExtendStep(sizeX, sizeY, walls, sources, heat, heat', visited, visited', walkTo, walkTo', cur, ns, p);
      } else {
        KeepStep(sizeX, sizeY, walls, sources, heat, heat', visited, visited', walkTo, walkTo', cur, ns, p);
      }
    }
  }

  /** `ExtendWalks` for a cell that takes `cur`'s path extended by one step. */
  lemma ExtendStep(sizeX: nat, sizeY: nat, walls: set<GridPos>, sources: set<GridPos>,
                   heat: seq<seq<real>>, heat': seq<seq<real>>, visited: set<GridPos>, visited': set<GridPos>,
                   walkTo: map<GridPos, seq<GridPos>>, walkTo': map<GridPos, seq<GridPos>>,
                   cur: GridPos, ns: set<GridPos>, p: GridPos)
    requires cur in visited && ns == Neighbors(sizeX, sizeY, cur) - walls
    requires visited' == visited + ns
    requires Witnessed(sizeX, sizeY, walls, sources, heat, walkTo, cur)
    requires WalkBelow(heat, visited, walkTo, cur)
    requires forall q :: HeatAt(heat', q) == Relaxed(heat, visited, cur, ns, q)
    requires p in ns && (p !in visited || HeatAt(heat, p) > HeatAt(heat, cur) + Distance(cur, p))
    requires p in walkTo' && walkTo'[p] == walkTo[cur] + [p]
    ensures Witnessed(sizeX, sizeY, walls, sources, heat', walkTo', p)
    ensures WalkBelow(heat', visited', walkTo', p)
  {
    var w := walkTo[cur];
    var v := w + [p];
    var hp := HeatAt(heat, cur) + Distance(cur, p);
    assert HeatAt(heat', p) == Relaxed(heat, visited, cur, ns, p) == hp;
    WalkExtend(sizeX, sizeY, walls, sources, w, p);
    forall k | 0 <= k < |w| ensures w[k] != p {
      assert w[k] in visited && HeatAt(heat, w[k]) <= HeatAt(heat, cur);
    }
    DistinctAppend(w, p);
    forall k | 0 <= k < |v| ensures v[k] in visited' && HeatAt(heat', v[k]) <= HeatAt(heat', p) {
      if k < |w| {
        assert v[k] == w[k] && w[k] in visited;
        assert HeatAt(heat', w[k]) == Relaxed(heat, visited, cur, ns, w[k]);
      }
    }
  }

  /** `ExtendWalks` for a visited cell whose path stays: its heat is unchanged, and no
      cell on its path got hotter. */
  lemma KeepStep(sizeX: nat, sizeY: nat, walls: set<GridPos>, sources: set<GridPos>,
                 heat: seq<seq<real>>, heat': seq<seq<real>>, visited: set<GridPos>, visited': set<GridPos>,
                 walkTo: map<GridPos, seq<GridPos>>, walkTo': map<GridPos, seq<GridPos>>,
                 cur: GridPos, ns: set<GridPos>, p: GridPos)
    requires ns == Neighbors(sizeX, sizeY, cur) - walls
    requires visited' == visited + ns
    requires p in visited
    requires Witnessed(sizeX, sizeY, walls, sources, heat, walkTo, p)
    requires WalkBelow(heat, visited, walkTo, p)
    requires forall q :: HeatAt(heat', q) == Relaxed(heat, visited, cur, ns, q)
    requires !(p in ns && HeatAt(heat, p) > HeatAt(heat, cur) + Distance(cur, p))
    requires p in walkTo' && walkTo'[p] == walkTo[p]
    ensures Witnessed(sizeX, sizeY, walls, sources, heat', walkTo', p)
    ensures WalkBelow(heat', visited', walkTo', p)
  {
    assert HeatAt(heat', p) == Relaxed(heat, visited, cur, ns, p) == HeatAt(heat, p);
    var w := walkTo[p];
    forall k | 0 <= k < |w| ensures w[k] in visited' && HeatAt(heat', w[k]) <= HeatAt(heat', p) {
      assert w[k] in visited;
      assert HeatAt(heat', w[k]) == Relaxed(heat, visited, cur, ns, w[k]);
    }
  }

  /** Appending a value the sequence does not hold keeps it duplicate-free. */
  lemma DistinctAppend(w: seq<GridPos>, p: GridPos)
    requires Distinct(w) && p !in w
    ensures Distinct(w + [p])
  {
    var v := w + [p];
    forall i, j | 0 <= i < j < |v| ensures v[i] != v[j] {
      assert v[i] == w[i];
      if j < |w| { assert v[j] == w[j]; }
    }
  }

  /** Every walk from a source ends at a reached cell, once the heat field is closed
      under non-wall neighbours and every source is reached. */
  lemma {:induction false} WalkEndReached(sizeX: nat, sizeY: nat, walls: set<GridPos>, sources: set<GridPos>,
                                          heat: seq<seq<real>>, w: seq<GridPos>)
    requires forall s :: s in sources ==> HeatAt(heat, s) != Unreached
    requires HeatClosed(sizeX, sizeY, walls, heat)
    requires IsWalk(sizeX, sizeY, walls, sources, w)
    ensures HeatAt(heat, w[|w| - 1]) != Unreached
    decreases |w|
  {
    if |w| > 1 {
      var v := w[..|w| - 1];
      assert IsWalk(sizeX, sizeY, walls, sources, v) by {
        assert forall k :: 0 <= k < |v| ==> v[k] == w[k];
      }
      WalkEndReached(sizeX, sizeY, walls, sources, heat, v);
      assert w[|w| - 1] in Neighbors(sizeX, sizeY, w[|w| - 2]) && w[|w| - 1] !in walls;
    }
  }

  /** After the wavefront, a cell of the grid has a heat exactly when it is reachable from
      a source through non-wall neighbours; any other cell keeps the sentinel. */
  lemma ReachedIffReachable(sizeX: nat, sizeY: nat, walls: set<GridPos>, sources: set<GridPos>,
                            heat: seq<seq<real>>, c: GridPos)
    requires forall s :: s in sources ==> HeatAt(heat, s) != Unreached
    requires HeatClosed(sizeX, sizeY, walls, heat)
    requires HeatIsWalkCost(sizeX, sizeY, walls, sources, heat)
    requires InBound(sizeX, sizeY, c)
    ensures HeatAt(heat, c) != Unreached <==> Reachable(sizeX, sizeY, walls, sources, c)
  {
    if Reachable(sizeX, sizeY, walls, sources, c) {
      var w :| IsWalk(sizeX, sizeY, walls, sources, w) && w[|w| - 1] == c;
      WalkEndReached(sizeX, sizeY, walls, sources, heat, w);
    }
  }

  /** On a 2×1 grid seeded at `(0, 0)` with no walls, any heat field whose heats are path
      costs gives `(1, 0)` the heat 1, the one value the wavefront computes there: a path
      visits each of the two cells at most once. */
  lemma TwoCellPathCost(heat: seq<seq<real>>)
    requires HeatIsWalkCost(2, 1, {}, {GridPos(0, 0)}, heat)
    requires HeatAt(heat, GridPos(1, 0)) != Unreached
    ensures HeatAt(heat, GridPos(1, 0)) == 1.0
  {
    var p := GridPos(1, 0);
    assert InBound(2, 1, p);
    var w :| IsWalk(2, 1, {}, {GridPos(0, 0)}, w) && w[|w| - 1] == p && Distinct(w) &&
             Steps(w) && WalkCost(w) == HeatAt(heat, p);
    TwoCellPath(w);
    assert WalkCost(w) == WalkCost(w[..1]) + Distance(w[0], w[1]);
    assert WalkCost(w[..1]) == 0.0;
  }

  /** The only path from `(0, 0)` to `(1, 0)` on a 2×1 grid without walls is the direct
      step. */
  lemma TwoCellPath(w: seq<GridPos>)
    requires IsWalk(2, 1, {}, {GridPos(0, 0)}, w) && w[|w| - 1] == GridPos(1, 0) && Distinct(w)
    ensures w == [GridPos(0, 0), GridPos(1, 0)]
  {
    forall k | 0 <= k < |w| ensures w[k] == GridPos(0, 0) || w[k] == GridPos(1, 0) {
      if k > 0 {
        assert w[k] in Neighbors(2, 1, w[k - 1]);
      }
    }
    assert |w| >= 2 && w[1] != w[0];
    assert w[1] == w[|w| - 1];
  }
}
