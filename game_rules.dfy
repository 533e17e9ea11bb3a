/**
 The pure rules of the falling-fruit game: the constants of the playing
 field, the fruit record, the collision test, how one tick moves and sorts
 the fruits, how a key press moves the player, how a new fruit is drawn and
 how the spawn interval shrinks as the score grows.

 Coordinates are percentages of the field: `x` runs from 0 (left) to 100,
 `y` from 0 (top) to 100 (bottom).
 */
module GameRules {

  // ---------------------------------------------------------------------
  // Constants of the game
  // ---------------------------------------------------------------------

  const PlayerStep: int := 5
  const PlayerMin: int := 0
  const PlayerMax: int := 95
  const StartPosition: int := 50

  const InitialSpawnInterval: real := 2000.0
  const MinSpawnInterval: real := 500.0
  const SpawnShrink: real := 0.9
  /** Score values at which the spawn interval shrinks are the positive multiples of this. */
  const ScoreMilestone: nat := 10

  const CollisionThreshold: real := 8.0
  const FallSpeed: int := 1
  /** The row of the player: only fruit strictly below it can hit. */
  const PlayerRow: int := 85
  /** A fruit whose row reaches this has left the field. */
  const FieldBottom: int := 100
  /** New fruit appear at a column in [0, SpawnWidth). */
  const SpawnWidth: real := 95.0

  // ---------------------------------------------------------------------
  // Fruit
  // ---------------------------------------------------------------------

  datatype FruitType = Apple | Banana | Orange | Pear

  /** The fruit types in the order a random roll picks them. */
  const FruitTypes: seq<FruitType> := [Apple, Banana, Orange, Pear]

  /** A falling fruit: its column is fixed at creation, its row grows by one per tick. */
  datatype Fruit = Fruit(x: real, y: int, kind: FruitType)

  datatype Option<T> = None | Some(value: T)

  /** A fruit as it may sit in the field between ticks. */
  predicate OnField(f: Fruit) {
    0 <= f.y < FieldBottom && 0.0 <= f.x < SpawnWidth
  }

  function Abs(v: real): (r: real)
    ensures r >= 0.0 && (r == v || r == -v)
  {
    if v < 0.0 then -v else v
  }

  // ---------------------------------------------------------------------
  // Collision
  // ---------------------------------------------------------------------

  /**
   A fruit hits the player when it is below the player's row and its column
   is closer than the threshold to the player's column. Only the horizontal
   distance matters once the fruit is past the row.
   */
  function Collides(f: Fruit, p: int): (hit: bool)
    ensures hit <==> f.y > PlayerRow
                     && p as real - CollisionThreshold < f.x < p as real + CollisionThreshold
    ensures f.y <= PlayerRow ==> !hit
  {
    f.y > PlayerRow && Abs(f.x - p as real) < CollisionThreshold
  }

  /** Some fruit of `fs` hits the player at column `p`. */
  ghost predicate AnyCollides(fs: seq<Fruit>, p: int) {
    exists i :: 0 <= i < |fs| && Collides(fs[i], p)
  }

  /**
   The first fruit of `fs` that hits the player, or None when none does;
   this is the search the tick runs over the surviving fruit.
   */
  method FindCollision(fs: seq<Fruit>, p: int) returns (hit: Option<Fruit>)
    ensures hit.None? <==> !AnyCollides(fs, p)
    ensures hit.Some? ==> exists i :: 0 <= i < |fs| && fs[i] == hit.value && Collides(fs[i], p)
                                      && forall j :: 0 <= j < i ==> !Collides(fs[j], p)
  {
    var i := 0;
    while i < |fs|
      invariant 0 <= i <= |fs|
      invariant forall j :: 0 <= j < i ==> !Collides(fs[j], p)
    {
      if Collides(fs[i], p) {
        return Some(fs[i]);
      }
      i := i + 1;
    }
    return None;
  }

  // ---------------------------------------------------------------------
  // One tick: every fruit falls, fruit that reached the bottom leave
  // ---------------------------------------------------------------------

  /** Every fruit moves down by the fall speed; column and type stay. */
  function Fall(fs: seq<Fruit>): (r: seq<Fruit>)
    ensures |r| == |fs|
    ensures forall i :: 0 <= i < |fs| ==>
              r[i].x == fs[i].x && r[i].kind == fs[i].kind && r[i].y == fs[i].y + FallSpeed
  {
    if fs == [] then [] else [fs[0].(y := fs[0].y + FallSpeed)] + Fall(fs[1..])
  }

  /** The fruit still in the field, in their original order. */
  function Remaining(fs: seq<Fruit>): (r: seq<Fruit>)
    ensures |r| <= |fs|
    ensures forall i :: 0 <= i < |r| ==> r[i].y < FieldBottom
  {
    if fs == [] then []
    else if fs[0].y >= FieldBottom then Remaining(fs[1..])
    else [fs[0]] + Remaining(fs[1..])
  }

  /** How many fruit have left the field: each one is a point of survival score. */
  function Missed(fs: seq<Fruit>): (n: nat)
    ensures n + |Remaining(fs)| == |fs|
  {
    if fs == [] then 0
    else (if fs[0].y >= FieldBottom then 1 else 0) + Missed(fs[1..])
  }

  lemma FallAppend(a: seq<Fruit>, b: seq<Fruit>)
    ensures Fall(a + b) == Fall(a) + Fall(b)
  {
  }

  /**
   Filtering keeps relative order: the survivors of a concatenation are the
   survivors of the first part followed by those of the second.
   */
  lemma {:induction false} RemainingAppend(a: seq<Fruit>, b: seq<Fruit>)
    ensures Remaining(a + b) == Remaining(a) + Remaining(b)
  {
    if a == [] {
      assert a + b == b;
    } else {
      assert (a + b)[1..] == a[1..] + b;
      RemainingAppend(a[1..], b);
    }
  }

  lemma {:induction false} MissedAppend(a: seq<Fruit>, b: seq<Fruit>)
    ensures Missed(a + b) == Missed(a) + Missed(b)
  {
    if a == [] {
      assert a + b == b;
    } else {
      assert (a + b)[1..] == a[1..] + b;
      MissedAppend(a[1..], b);
    }
  }

  /**
   Extending the old list by one fruit extends the tick's outcome by that
   fruit's own outcome: kept after falling, or counted as missed.
   */
  lemma TickStep(s: seq<Fruit>, f: Fruit)
    ensures Remaining(Fall(s + [f])) == Remaining(Fall(s))
              + (if f.y + FallSpeed < FieldBottom then [f.(y := f.y + FallSpeed)] else [])
    ensures Missed(Fall(s + [f])) == Missed(Fall(s)) + (if f.y + FallSpeed < FieldBottom then 0 else 1)
  {
    var g := f.(y := f.y + FallSpeed);
    var fallen := Fall(s);
    assert Fall([f]) == [g] by {
      assert [f][1..] == [];
    }
    FallAppend(s, [f]);
    assert Fall(s + [f]) == fallen + [g];
    assert Remaining([g]) == (if g.y < FieldBottom then [g] else []) by {
      assert [g][1..] == [];
    }
    assert Missed([g]) == (if g.y < FieldBottom then 0 else 1) by {
      assert [g][1..] == [];
    }
    RemainingAppend(fallen, [g]);
    MissedAppend(fallen, [g]);
  }

  /** A fruit survives the filter exactly when it was in the list and is still on the field. */
  lemma {:induction false} RemainingMembers(fs: seq<Fruit>)
    ensures forall f :: f in Remaining(fs) <==> f in fs && f.y < FieldBottom
  {
    if fs != [] {
      RemainingMembers(fs[1..]);
      assert fs == [fs[0]] + fs[1..];
    }
  }

  /** No point is scored exactly when no fruit has reached the bottom. */
  lemma {:induction false} MissedNone(fs: seq<Fruit>)
    ensures Missed(fs) == 0 <==> forall i :: 0 <= i < |fs| ==> fs[i].y < FieldBottom
  {
    if fs != [] {
      MissedNone(fs[1..]);
      assert forall i :: 1 <= i < |fs| ==> fs[i] == fs[1..][i - 1];
    }
  }

  /** When no fruit has reached the bottom, filtering keeps the whole list. */
  lemma {:induction false} RemainingAllOnField(fs: seq<Fruit>)
    requires forall i :: 0 <= i < |fs| ==> fs[i].y < FieldBottom
    ensures Remaining(fs) == fs
  {
    if fs != [] {
      RemainingAllOnField(fs[1..]);
    }
  }

  /**
   The fruit that survive a tick are the old fruit moved down one row and
   still on the field: no survivor is at or past the bottom, and each one
   kept its column and type.
   */
  lemma TickSurvivorsOnField(fs: seq<Fruit>)
    requires forall f :: f in fs ==> OnField(f)
    ensures forall f :: f in Remaining(Fall(fs)) ==> OnField(f) && f.y >= FallSpeed
  {
    RemainingMembers(Fall(fs));
    forall f | f in Remaining(Fall(fs))
      ensures OnField(f) && f.y >= FallSpeed
    {
      var i :| 0 <= i < |Fall(fs)| && Fall(fs)[i] == f;
      assert fs[i] in fs;
    }
  }

  // ---------------------------------------------------------------------
  // Player movement
  // ---------------------------------------------------------------------

  /** The positions the player can occupy: the bounds, in whole steps. */
  predicate OnTrack(p: int) {
    PlayerMin <= p <= PlayerMax && p % PlayerStep == 0
  }

  /**
   The effect of one key press on the player's column: a left arrow steps
   left unless already at the left bound, a right arrow steps right unless
   already at the right bound, any other key does nothing.
   */
  function KeyMove(p: int, key: string): (r: int)
    ensures OnTrack(p) ==> OnTrack(r)
    ensures r < p <==> key == "ArrowLeft" && p > PlayerMin
    ensures r > p <==> key == "ArrowRight" && p < PlayerMax
    ensures r == p || r == p - PlayerStep || r == p + PlayerStep
  {
    if key == "ArrowLeft" && p > PlayerMin then p - PlayerStep
    else if key == "ArrowRight" && p < PlayerMax then p + PlayerStep
    else p
  }

  /** The column after a sequence of key presses, taken in order. */
  function KeyMoves(p: int, keys: seq<string>): (r: int)
    decreases |keys|
  {
    if keys == [] then p else KeyMoves(KeyMove(p, keys[0]), keys[1..])
  }

  /** Whatever keys are pressed, the player stays within bounds and on the step grid. */
  lemma {:induction false} KeyMovesStayOnTrack(p: int, keys: seq<string>)
    requires OnTrack(p)
    ensures OnTrack(KeyMoves(p, keys))
    decreases |keys|
  {
    if keys != [] {
      KeyMovesStayOnTrack(KeyMove(p, keys[0]), keys[1..]);
    }
  }

  /** In particular from the starting column. */
  lemma KeyMovesFromStart(keys: seq<string>)
    ensures PlayerMin <= KeyMoves(StartPosition, keys) <= PlayerMax
    ensures KeyMoves(StartPosition, keys) % PlayerStep == 0
  {
    KeyMovesStayOnTrack(StartPosition, keys);
  }

  // ---------------------------------------------------------------------
  // Spawning
  // ---------------------------------------------------------------------

  /**
   The fruit created from two random rolls in [0, 1): the type roll picks
   one of the four types, the column roll is scaled to [0, SpawnWidth).
   */
  function SpawnedFruit(typeRoll: real, xRoll: real): (f: Fruit)
    requires 0.0 <= typeRoll < 1.0 && 0.0 <= xRoll < 1.0
    ensures f.y == 0 && 0.0 <= f.x < SpawnWidth
    ensures OnField(f)
  {
    var k := (typeRoll * |FruitTypes| as real).Floor;
    Fruit(xRoll * SpawnWidth, 0, FruitTypes[k])
  }

  /** Each fruit type is picked by exactly one quarter of the type roll's range. */
  lemma SpawnKindShare(typeRoll: real, xRoll: real, k: nat)
    requires 0.0 <= typeRoll < 1.0 && 0.0 <= xRoll < 1.0
    requires k < |FruitTypes|
    ensures SpawnedFruit(typeRoll, xRoll).kind == FruitTypes[k]
            <==> k as real / 4.0 <= typeRoll < (k + 1) as real / 4.0
  {
  }

  // ---------------------------------------------------------------------
  // Difficulty
  // ---------------------------------------------------------------------

  function Max(a: real, b: real): (r: real)
    ensures r >= a && r >= b && (r == a || r == b)
  {
    if a >= b then a else b
  }

  /** The score is a milestone: positive and a multiple of ten. */
  predicate AtMilestone(score: nat) {
    score > 0 && score % ScoreMilestone == 0
  }

  /**
   The spawn interval after the score took the value `score`: at a
   milestone it shrinks by ten percent but not below the floor; otherwise it
   is left as it was.
   */
  function NextSpawnInterval(score: nat, interval: real): (r: real)
    ensures !AtMilestone(score) ==> r == interval
    ensures MinSpawnInterval <= interval ==> MinSpawnInterval <= r <= interval
    ensures AtMilestone(score) && interval > MinSpawnInterval ==> r < interval
    ensures AtMilestone(score) && interval * SpawnShrink >= MinSpawnInterval ==> r == interval * SpawnShrink
    ensures AtMilestone(score) && interval * SpawnShrink < MinSpawnInterval ==> r == MinSpawnInterval
  {
    if AtMilestone(score) then Max(interval * SpawnShrink, MinSpawnInterval) else interval
  }

  /** The spawn interval after the score took each of `scores` in turn. */
  function SpawnIntervalAfter(interval: real, scores: seq<nat>): (r: real)
    decreases |scores|
  {
    if scores == [] then interval
    else SpawnIntervalAfter(NextSpawnInterval(scores[0], interval), scores[1..])
  }

  /**
   Over any sequence of score changes the spawn interval never grows and
   never drops below the floor.
   */
  lemma {:induction false} SpawnIntervalBounded(interval: real, scores: seq<nat>)
    requires MinSpawnInterval <= interval
    ensures MinSpawnInterval <= SpawnIntervalAfter(interval, scores) <= interval
    decreases |scores|
  {
    if scores != [] {
      SpawnIntervalBounded(NextSpawnInterval(scores[0], interval), scores[1..]);
    }
  }

  /** Score changes that never reach a milestone leave the interval alone. */
  lemma {:induction false} SpawnIntervalNoMilestone(interval: real, scores: seq<nat>)
    requires forall i :: 0 <= i < |scores| ==> !AtMilestone(scores[i])
    ensures SpawnIntervalAfter(interval, scores) == interval
  {
    if scores != [] {
      SpawnIntervalNoMilestone(interval, scores[1..]);
    }
  }
}
