/** Levels: how deep a sequence of steps in and out has gone, when steps in past a limit and steps out below 0
    change nothing. */
module HidLevels {

  datatype Move = In | Out | Stay

  function Height(ms: seq<Move>, limit: nat, n: nat): nat
    requires n <= |ms|
  {
    if n == 0 then 0
    else
      var h := Height(ms, limit, n - 1);
      match ms[n - 1]
      case In => if h < limit then h + 1 else h
      case Out => if h > 0 then h - 1 else 0
      case Stay => h
  }

  lemma {:induction false} HeightWithin(ms: seq<Move>, limit: nat, n: nat)
    requires n <= |ms|
    ensures Height(ms, limit, n) <= limit
  {
    if n > 0 { HeightWithin(ms, limit, n - 1); }
  }

  lemma {:induction false} HeightPrefix(ms: seq<Move>, limit: nat, k: nat, n: nat)
    requires n <= k <= |ms|
    ensures Height(ms[..k], limit, n) == Height(ms, limit, n)
  {
    if n > 0 { HeightPrefix(ms, limit, k, n - 1); }
  }

  /** Step m went in from level h, and since then the level has been above h. */
  ghost predicate Entered(ms: seq<Move>, limit: nat, m: nat, h: nat, n: nat) {
    m < n <= |ms| && ms[m] == In && Height(ms, limit, m) == h < limit &&
    forall k :: m < k <= n ==> Height(ms, limit, k) > h
  }

  /** Every level up to the present one was entered. */
  lemma {:induction false} LastIn(ms: seq<Move>, limit: nat, n: nat, h: nat) returns (m: nat)
    requires n <= |ms| && h < Height(ms, limit, n)
    ensures Entered(ms, limit, m, h, n)
  {
    if Height(ms, limit, n - 1) <= h { m := n - 1; }
    else { m := LastIn(ms, limit, n - 1, h); }
  }
}
