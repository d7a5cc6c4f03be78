/** The rate-limited gateway object and its path-variable helper. */
module Api {
  import opened Constrains
  import opened JavaStrings
  import opened Window

  /** The two ways getPathVariable can fail: the IllegalArgumentException it
      throws itself, and the index errors of the split array or of substring. */
  datatype Error = BadRequest | Unexpected

  datatype Result<T> = Ok(value: T) | Err(error: Error)

  /** Java's 32-bit `int` arithmetic: the value congruent to `x` modulo 2^32
      in -2^31 .. 2^31 - 1. */
  function Wrap32(x: int): (r: int)
    ensures -0x8000_0000 <= r < 0x8000_0000
    ensures (r - x) % 0x1_0000_0000 == 0
  {
    (x + 0x8000_0000) % 0x1_0000_0000 - 0x8000_0000
  }

  /** The size serverStart asks of the thread pool: requestLimit * 2 as an int. */
  function PoolSize(limit: int): int {
    Wrap32(limit * 2)
  }

  /** The pool size is positive exactly for the limits 1 .. 2^30 - 1 and, after
      wrap-around, -2^31 + 1 .. -2^30 - 1. */
  lemma PoolSizePositive(limit: int)
    requires -0x8000_0000 <= limit < 0x8000_0000
    ensures PoolSize(limit) > 0 <==> 0 < limit < 0x4000_0000 || -0x8000_0000 < limit < -0x4000_0000
  {
    var m := limit * 2 + 0x8000_0000;
    if limit < -0x4000_0000 {
      assert PoolSize(limit) == limit * 2 + 0x1_0000_0000 by {
        assert 0 <= m + 0x1_0000_0000 < 0x1_0000_0000;
        assert m % 0x1_0000_0000 == m + 0x1_0000_0000;
      }
    } else if limit < 0x4000_0000 {
      assert PoolSize(limit) == limit * 2 by {
        assert 0 <= m < 0x1_0000_0000;
        assert m % 0x1_0000_0000 == m;
      }
    } else {
      assert PoolSize(limit) == limit * 2 - 0x1_0000_0000 by {
        assert 0 <= m - 0x1_0000_0000 < 0x1_0000_0000;
        assert m % 0x1_0000_0000 == m - 0x1_0000_0000;
      }
    }
  }

  /** The gateway: a window length in milliseconds, a request limit and the
      deque of the timestamps of admitted requests, oldest first. Each call of
      a method is one atomic step. */
  class CrptApi {
    /** One unit of the configured TimeUnit, in milliseconds. */
    const window: int
    const limit: int
    var requests: seq<int>

    /** The deque never holds more stamps than the limit admits (none for a
        limit that is not positive). */
    ghost predicate Valid()
      reads this
    {
      0 <= window && |requests| <= (if limit > 0 then limit else 0)
    }

    /** The window converted from a TimeUnit is never negative. The limit is any
        `int` for which starting the server succeeds: the thread pool of
        serverStart throws unless its wrapped size requestLimit * 2 is
        positive. A negative limit that passes admits no request at all. */
    constructor (window: int, limit: int)
      requires 0 <= window
      requires -0x8000_0000 <= limit < 0x8000_0000 && PoolSize(limit) > 0
      ensures Valid()
      ensures this.window == window && this.limit == limit && requests == []
    {
      this.window := window;
      this.limit := limit;
      requests := [];
    }

    /** Pops the front while its age at `now` is strictly greater than the
        window; answers whether fewer than `limit` timestamps remain. */
    method IsNotLimitMax(now: int) returns (notMax: bool)
      requires Valid()
      modifies this
      ensures Valid()
      ensures requests == Evict(old(requests), now, window)
      ensures notMax <==> |requests| < limit
    {
      while requests != [] && now - requests[0] > window
        invariant |requests| <= |old(requests)|
        invariant Evict(requests, now, window) == Evict(old(requests), now, window)
        decreases |requests|
      {
        requests := requests[1..];
      }
      notMax := |requests| < limit;
    }

    /** One request through the context that create registers: if the gate
        admits it, the timestamp `stamp` (the clock read again) is recorded
        before the handler runs, and the handler's response is the answer;
        otherwise the fixed 502 response. The deque ends as Step says,
        whatever the handler answers. */
    method Dispatch<X>(now: int, stamp: int, exchange: X, handler: X -> HttpResponse) returns (res: HttpResponse)
      requires Valid()
      modifies this
      ensures Valid()
      ensures requests == Step(old(requests), now, stamp, window, limit).queue
      ensures res == if Step(old(requests), now, stamp, window, limit).admitted
                     then handler(exchange) else MAX_LIMIT_REJECTION
    {
      var notMax := IsNotLimitMax(now);
      if notMax {
        requests := requests + [stamp];
        res := handler(exchange);
      } else {
        res := MAX_LIMIT_REJECTION;
      }
    }
  }

  /** getPathVariable: the second element of the request path split around the
      route, without its first character; a result holding '/' or '?' is a bad
      request. */
  function GetPathVariable(reqPath: string, path: string): (r: Result<string>)
    requires path != []
    ensures r.Ok? ==> '/' !in r.value && '?' !in r.value
    ensures r.Ok? ==> |Split(reqPath, path)| >= 2 && Split(reqPath, path)[1] != []
                      && Split(reqPath, path)[1][1..] == r.value
    ensures r == Err(Unexpected) <==> |Split(reqPath, path)| < 2 || Split(reqPath, path)[1] == []
    ensures r == Err(BadRequest) <==> |Split(reqPath, path)| >= 2 && Split(reqPath, path)[1] != []
                                      && ('/' in Split(reqPath, path)[1][1..] || '?' in Split(reqPath, path)[1][1..])
  {
    var parts := Split(reqPath, path);
    if |parts| < 2 || parts[1] == [] then Err(Unexpected)
    else
      var variable := parts[1][1..];
      if '/' in variable || '?' in variable then Err(BadRequest) else Ok(variable)
  }

  /** For a path made of the route, a '/' and a segment `s` (where "/" + s holds
      no further occurrence of the route), the variable is `s`, or a bad request
      when `s` holds '/' or '?'. */
  lemma PathVariableOfRoute(route: string, s: string)
    requires route != []
    requires Absent(['/'] + s, route)
    ensures GetPathVariable(route + ['/'] + s, route)
            == if '/' in s || '?' in s then Err(BadRequest) else Ok(s)
  {
    assert route + ['/'] + s == route + (['/'] + s);
    SplitAfterLeadingSeparator(route, ['/'] + s);
    assert (['/'] + s)[1..] == s;
  }

  /** A path in which the route does not occur cannot be split into two parts:
      the index error, answered with 500. */
  lemma PathVariableWithoutRoute(reqPath: string, route: string)
    requires route != []
    requires Absent(reqPath, route)
    ensures GetPathVariable(reqPath, route) == Err(Unexpected)
  {
  }

  /** The route alone splits into nothing (both pieces are empty and trimmed),
      so indexing fails: 500. */
  lemma PathVariableOfBareRoute(route: string)
    requires route != []
    ensures GetPathVariable(route, route) == Err(Unexpected)
  {
    assert OccursAt(route, route, 0) by { assert route[0..|route|] == route; }
    assert IndexOf(route, route) == 0;
    assert route[|route|..] == [];
    assert Pieces([], route) == [[]];
    assert Pieces(route, route) == [[], []];
    assert TrimTrailingEmpty([[], []]) == [];
  }
}
