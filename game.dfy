/**
 The state of one running game and the handlers that change it: the tick,
 the spawn of a fruit, a key press, the reaction to a score change and the
 restart. Each handler runs to completion before the next one starts.
 */
module FruitGame {
  import opened GameRules

  class Game {
    var playerPosition: int
    var fruits: seq<Fruit>
    var isGameOver: bool
    var score: nat
    var spawnInterval: real
    /** The score the score effect last ran with; the effect runs again only once the score differs. */
    var effectScore: nat

    /**
     The player is on its track, the spawn interval lies between the floor
     and its initial value, and every fruit is inside the field.
     */
    ghost predicate Valid()
      reads this
    {
      OnTrack(playerPosition)
      && MinSpawnInterval <= spawnInterval <= InitialSpawnInterval
      && forall f :: f in fruits ==> OnField(f)
    }

    /** A fresh game: player in the middle, no fruit, score zero, slowest spawning. */
    constructor ()
      ensures Valid()
      ensures playerPosition == StartPosition && fruits == [] && !isGameOver
      ensures score == 0 && spawnInterval == InitialSpawnInterval && effectScore == 0
    {
      playerPosition := StartPosition;
      fruits := [];
      isGameOver := false;
      score := 0;
      spawnInterval := InitialSpawnInterval;
      effectScore := 0;
    }

    /**
     One tick of the game loop. Every fruit falls one row; a fruit that
     reached the bottom is dropped and, unless the game is already over,
     earns a point; then, if some remaining fruit hits the player, the game
     is over. The tick never clears game over and never moves the player.
     */
    method Tick()
      requires Valid()
      modifies this
      ensures Valid()
      ensures fruits == Remaining(Fall(old(fruits)))
      ensures score == if old(isGameOver) then old(score)
                       else old(score) + Missed(Fall(old(fruits)))
      ensures isGameOver == (old(isGameOver) || AnyCollides(fruits, playerPosition))
      ensures playerPosition == old(playerPosition) && spawnInterval == old(spawnInterval)
      ensures effectScore == old(effectScore)
    {
      var prev := fruits;
      var updated: seq<Fruit> := [];
      var i := 0;
      while i < |prev|
        invariant 0 <= i <= |prev|
        invariant updated == Remaining(Fall(prev[..i]))
        invariant score == if isGameOver then old(score) else old(score) + Missed(Fall(prev[..i]))
        invariant isGameOver == old(isGameOver) && fruits == old(fruits)
        invariant playerPosition == old(playerPosition) && spawnInterval == old(spawnInterval)
        invariant effectScore == old(effectScore)
      {
        var fruit := prev[i].(y := prev[i].y + FallSpeed);
        assert prev[..i + 1] == prev[..i] + [prev[i]];
        TickStep(prev[..i], prev[i]);
        if fruit.y >= FieldBottom {
          if !isGameOver {
            score := score + 1;
          }
        } else {
          updated := updated + [fruit];
        }
        i := i + 1;
      }
      assert prev[..i] == prev;
      var collided := FindCollision(updated, playerPosition);
      if collided.Some? {
        isGameOver := true;
      }
      fruits := updated;
      TickSurvivorsOnField(prev);
    }

    /**
     Spawn one fruit from two random rolls in [0, 1). Nothing happens once
     the game is over; otherwise the fruit joins the end of the list at the
     top row and the fruit already falling are left as they were.
     */
    method CreateFruit(typeRoll: real, xRoll: real)
      requires Valid()
      requires 0.0 <= typeRoll < 1.0 && 0.0 <= xRoll < 1.0
      modifies this`fruits
      ensures Valid()
      ensures fruits == if old(isGameOver) then old(fruits)
                        else old(fruits) + [SpawnedFruit(typeRoll, xRoll)]
    {
      if isGameOver {
        return;
      }
      var newFruit := SpawnedFruit(typeRoll, xRoll);
      fruits := fruits + [newFruit];
    }

    /** A key press moves the player by at most one step, within bounds. */
    method HandleKeyPress(key: string)
      requires Valid()
      modifies this`playerPosition
      ensures Valid()
      ensures playerPosition == KeyMove(old(playerPosition), key)
    {
      if key == "ArrowLeft" && playerPosition > PlayerMin {
        playerPosition := playerPosition - PlayerStep;
      }
      if key == "ArrowRight" && playerPosition < PlayerMax {
        playerPosition := playerPosition + PlayerStep;
      }
    }

    /**
     The effect keyed on the score. It does nothing while the score equals
     the one it last ran with; once the score has a new value it runs once:
     at a positive multiple of ten the spawn interval shrinks by ten percent,
     not below the floor.
     */
    method OnScoreChanged()
      requires Valid()
      modifies this`spawnInterval, this`effectScore
      ensures Valid()
      ensures effectScore == score
      ensures spawnInterval == if score == old(effectScore) then old(spawnInterval)
                               else NextSpawnInterval(score, old(spawnInterval))
      ensures spawnInterval <= old(spawnInterval)
    {
      if score == effectScore {
        return;
      }
      effectScore := score;
      if score > 0 && score % ScoreMilestone == 0 {
        spawnInterval := Max(spawnInterval * SpawnShrink, MinSpawnInterval);
      }
    }

    /**
     Play again: game over is cleared, the score and the fruit list are
     emptied and spawning returns to its initial pace; the player stays
     where it is.
     */
    method Restart()
      requires Valid()
      modifies this
      ensures Valid()
      ensures !isGameOver && score == 0 && fruits == []
      ensures spawnInterval == InitialSpawnInterval
      ensures playerPosition == old(playerPosition) && effectScore == old(effectScore)
    {
      isGameOver := false;
      score := 0;
      fruits := [];
      spawnInterval := InitialSpawnInterval;
    }
  }

  /**
   Two fruit on the last row drop in the same tick, so the score goes from 9
   straight to 11. The score effect then runs with 11 only, and the spawn
   interval does not shrink although the score passed 10.
   */
  method DoubleDropSkipsMilestone(g: Game)
    requires g.Valid() && !g.isGameOver && g.score == 9 && g.effectScore == 9
    requires g.spawnInterval == InitialSpawnInterval
    requires g.fruits == [Fruit(10.0, 99, Apple), Fruit(20.0, 99, Pear)]
    modifies g
    ensures g.score == 11 && g.fruits == []
    ensures g.spawnInterval == InitialSpawnInterval
  {
    var before := g.fruits;
    g.Tick();
    assert Fall(before) == [Fruit(10.0, 100, Apple), Fruit(20.0, 100, Pear)];
    g.OnScoreChanged();
  }
}
