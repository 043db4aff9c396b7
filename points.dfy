/** Timestamped sensor points `(x, y, t)` and the expiry rule that every version of the
    game applies to its point lists once per frame: a point survives while
    `current_time - t < point_lifetime`. */
module Points {

  datatype TimedPoint = TimedPoint(x: real, y: real, t: int)

  predicate Alive(p: TimedPoint, now: int, lifetime: int) {
    now - p.t < lifetime
  }

  /** `[(x, y, t) for x, y, t in points if current_time - t < lifetime]`. */
  function Expire(points: seq<TimedPoint>, now: int, lifetime: int): seq<TimedPoint> {
    if points == [] then []
    else Expire(points[..|points| - 1], now, lifetime)
         + (if Alive(points[|points| - 1], now, lifetime) then [points[|points| - 1]] else [])
  }

  /** The filter keeps exactly the live points. */
  lemma {:induction false} ExpireMembers(points: seq<TimedPoint>, now: int, lifetime: int)
    ensures forall p :: p in Expire(points, now, lifetime) <==> p in points && Alive(p, now, lifetime)
    ensures |Expire(points, now, lifetime)| <= |points|
  {
    if points != [] {
      var init := points[..|points| - 1];
      ExpireMembers(init, now, lifetime);
      assert points == init + [points[|points| - 1]];
    }
  }

  /** The filter works point by point and keeps the order: filtering a concatenation is
      concatenating the filtered parts. */
  lemma {:induction false} ExpireAppend(a: seq<TimedPoint>, b: seq<TimedPoint>, now: int, lifetime: int)
    ensures Expire(a + b, now, lifetime) == Expire(a, now, lifetime) + Expire(b, now, lifetime)
    decreases |b|
  {
    if b != [] {
      var init := b[..|b| - 1];
      assert (a + b)[..|a + b| - 1] == a + init;
      assert (a + b)[|a + b| - 1] == b[|b| - 1];
      ExpireAppend(a, init, now, lifetime);
    } else {
      assert a + b == a;
    }
  }

  /** A list whose points are all alive is kept whole. */
  lemma {:induction false} ExpireAllAlive(points: seq<TimedPoint>, now: int, lifetime: int)
    requires forall i | 0 <= i < |points| :: Alive(points[i], now, lifetime)
    ensures Expire(points, now, lifetime) == points
  {
    if points != [] {
      ExpireAllAlive(points[..|points| - 1], now, lifetime);
    }
  }

  /** Filtering twice at the same time is filtering once. */
  lemma ExpireIdempotent(points: seq<TimedPoint>, now: int, lifetime: int)
    ensures Expire(Expire(points, now, lifetime), now, lifetime) == Expire(points, now, lifetime)
  {
    var r := Expire(points, now, lifetime);
    ExpireMembers(points, now, lifetime);
    assert forall i | 0 <= i < |r| :: r[i] in r;
    ExpireAllAlive(r, now, lifetime);
  }

  /** As time goes on, a filter at a later time removes whatever an earlier one did:
      filtering at t1 and then at t2 >= t1 is filtering at t2. */
  lemma {:induction false} ExpireLater(points: seq<TimedPoint>, t1: int, t2: int, lifetime: int)
    requires t1 <= t2
    ensures Expire(Expire(points, t1, lifetime), t2, lifetime) == Expire(points, t2, lifetime)
  {
    if points != [] {
      var init := points[..|points| - 1];
      var last := points[|points| - 1];
      ExpireLater(init, t1, t2, lifetime);
      ExpireAppend(Expire(init, t1, lifetime), if Alive(last, t1, lifetime) then [last] else [], t2, lifetime);
      assert Expire([last], t2, lifetime) == Expire([], t2, lifetime) + (if Alive(last, t2, lifetime) then [last] else []);
    }
  }

  /** The list comprehension `[(x, y, t) for x, y, t in points if current_time - t < lifetime]`. */
  method FilterAlive(points: seq<TimedPoint>, now: int, lifetime: int) returns (kept: seq<TimedPoint>)
    ensures kept == Expire(points, now, lifetime)
  {
    kept := [];
    for i := 0 to |points|
      invariant kept == Expire(points[..i], now, lifetime)
    {
      assert points[..i + 1][..i] == points[..i];
      if now - points[i].t < lifetime {
        kept := kept + [points[i]];
      }
    }
    assert points[..|points|] == points;
  }
}
