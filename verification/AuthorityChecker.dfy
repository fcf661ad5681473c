/** The authority checker as an object: the used-key marks live in it and outlast a check, the
    permission cache is handed from call to call. */
module AuthorityCheckerModel {
  import opened Options
  import opened AuthorityCheck

  class AuthorityChecker {
    const env: Env
    var used: seq<bool>

    ghost predicate Valid()
      reads this
    {
      |used| == |env.keys|
    }

    constructor (env: Env)
      ensures Valid() && this.env == env && used == Fresh(env).used
    {
      this.env := env;
      used := seq(|env.keys|, _ => false);
    }

    /** A check of an authority from the start. */
    method Satisfied(a: Authority) returns (ok: bool)
      requires Valid()
      modifies this
      ensures Valid()
      ensures ok == Check(env, State(old(used), StartCache(env)), a, 0).0
      ensures used == Check(env, State(old(used), StartCache(env)), a, 0).1.used
    {
      var cache;
      ok, cache := SatisfiedAt(a, StartCache(env), 0);
    }

    /** A check of a permission from the start. */
    method PermissionSatisfied(p: Perm) returns (ok: bool)
      requires Valid()
      modifies this
      ensures Valid()
      ensures ok == (Visit(env, State(old(used), StartCache(env)), Account(p, 1), 0, 0).0 > 0)
      ensures used == Visit(env, State(old(used), StartCache(env)), Account(p, 1), 0, 0).1.used
    {
      var total, cache := VisitFactor(Account(p, 1), 0, StartCache(env), 0);
      ok := total > 0;
    }

    method SatisfiedAt(a: Authority, cache: map<Perm, Status>, depth: nat) returns (ok: bool, next: map<Perm, Status>)
      requires Valid() && depth <= env.limit
      modifies this
      ensures Valid()
      ensures (ok, State(used, next)) == Check(env, State(old(used), cache), a, depth)
      decreases env.limit - depth, 1
    {
      var keys := used;
      var permissions := Sorted(a.factors);
      var total: nat, i := 0, 0;
      next := cache;
      while i < |permissions|
        invariant i <= |permissions| && Valid()
        invariant VisitAll(env, State(keys, cache), permissions, 0, a.threshold, depth) ==
                  VisitAll(env, State(used, next), permissions[i..], total, a.threshold, depth)
      {
        assert permissions[i..][1..] == permissions[i + 1..];
        total, next := VisitFactor(permissions[i], total, next, depth);
        if total >= a.threshold {
          return true, next;
        }
        i := i + 1;
      }
      used := keys;
      ok := false;
    }

    method VisitFactor(f: Factor, total: nat, cache: map<Perm, Status>, depth: nat)
      returns (sum: nat, next: map<Perm, Status>)
      requires Valid() && depth <= env.limit
      modifies this
      ensures Valid()
      ensures (sum, State(used, next)) == Visit(env, State(old(used), cache), f, total, depth)
      decreases env.limit - depth, 0
    {
      sum, next := total, cache;
      match f
      case Wait(seconds, w) =>
        if env.delay >= seconds * MICROSECONDS {
          sum := total + w;
        }
      case KeyOf(k, w) =>
        var i := Find(env.keys, k);
        if i < |env.keys| {
          used := used[i := true];
          sum := total + w;
        }
      case Account(p, w) =>
        var status := Lookup(cache, p);
        if status == None {
          if depth < env.limit && p in env.authorities {
            var ok;
            ok, next := SatisfiedAt(env.authorities[p], cache[p := Evaluating], depth + 1);
            if ok {
              sum := total + w;
              next := next[p := AuthorityCheck.Satisfied];
            } else {
              next := next[p := Unsatisfied];
            }
          }
        } else if status == Some(AuthorityCheck.Satisfied) {
          sum := total + w;
        }
    }
  }
}
