/** The metrics counter registry of the API (api/src/metrics.py): a
    dictionary of named integer counters that `inc` bumps in place and
    `snapshot` copies. */
module Counters {

  /** The counters the registry starts with. */
  const Names: seq<string> := ["alias_hits_total", "alias_misses_total", "normalize_calls_total"]

  function Initial(): (r: map<string, int>)
    ensures r.Keys == set i | 0 <= i < |Names| :: Names[i]
    ensures forall k :: k in r ==> r[k] == 0
  {
    map[Names[0] := 0, Names[1] := 0, Names[2] := 0]
  }

  /** `_counters.get(name, 0)`. */
  function Current(c: map<string, int>, name: string): int
  {
    if name in c then c[name] else 0
  }

  /** The counters after `inc(name, by)`: `name` is present and has grown
      by `amount` from its old value (0 when it was absent), and every other
      counter is as it was. */
  function Bumped(c: map<string, int>, name: string, amount: int): (r: map<string, int>)
    ensures name in r && r[name] == Current(c, name) + amount
    ensures forall k :: k != name ==> (k in r <==> k in c)
    ensures forall k :: k != name && k in c ==> r[k] == c[k]
  {
    c[name := Current(c, name) + amount]
  }

  /** Two increments of one counter are one increment by their sum. */
  lemma BumpedTwice(c: map<string, int>, name: string, a: int, b: int)
    ensures Bumped(Bumped(c, name, a), name, b) == Bumped(c, name, a + b)
  {
  }

  /** Increments of different counters commute. */
  lemma BumpedCommute(c: map<string, int>, m: string, n: string, a: int, b: int)
    requires m != n
    ensures Bumped(Bumped(c, m, a), n, b) == Bumped(Bumped(c, n, b), m, a)
  {
  }

  /** `inc(name)` on a counter the registry does not know creates it with
      the increment as its value. */
  lemma BumpedFresh(c: map<string, int>, name: string, amount: int)
    requires name !in c
    ensures Bumped(c, name, amount)[name] == amount
    ensures Bumped(c, name, amount).Keys == c.Keys + {name}
  {
  }

  class Registry {
    var counters: map<string, int>

    constructor ()
      ensures counters == Initial()
    {
      counters := Initial();
    }

    /** `inc(name, by)`. */
    method Inc(name: string, amount: int)
      modifies this
      ensures counters == Bumped(old(counters), name, amount)
    {
      counters := counters[name := Current(counters, name) + amount];
    }

    /** `snapshot()`: a dictionary equal to the counters. A Dafny map is a
        value, so changing the copy cannot change the registry. */
    method Snapshot() returns (copy: map<string, int>)
      ensures copy == counters
    {
      copy := map k | k in counters :: counters[k];
    }
  }

  /** A registry that only incremented each name once holds the initial
      zeros plus those increments. */
  lemma InitialThenBump(name: string, amount: int)
    requires name in Initial()
    ensures Bumped(Initial(), name, amount)[name] == amount
    ensures Bumped(Initial(), name, amount).Keys == Initial().Keys
  {
  }
}
