/** The closure of a permission set under `requires`, and guards that must be comparable. */
module Permissions {

  type Requires = map<string, seq<string>>

  function DepsOf(requires_: Requires, key: string): (deps: seq<string>) {
    if key in requires_ then requires_[key] else []
  }

  ghost predicate Closed(requires_: Requires, s: set<string>) {
    forall key, dep :: key in s && dep in DepsOf(requires_, key) ==> dep in s
  }

  /** The least set that holds the given permissions and everything that holding them requires. */
  ghost predicate IsClosure(requires_: Requires, permissions: set<string>, s: set<string>) {
    && permissions <= s && Closed(requires_, s)
    && forall t: set<string> :: permissions <= t && Closed(requires_, t) ==> s <= t
  }

  function Elements(xs: seq<string>): (s: set<string>) {
    set x | x in xs
  }

  /** Every key that can ever be pushed. */
  function Universe(requires_: Requires, permissions: seq<string>): (u: set<string>) {
    Elements(permissions) + set key, dep | key in requires_ && dep in requires_[key] :: dep
  }

  // ----- the worklist

  /** What the loop keeps: nothing is lost, what was seen is accounted for, and nothing unnecessary is in sight. */
  ghost predicate Progress(requires_: Requires, permissions: set<string>, seen: set<string>, todo: set<string>) {
    && permissions <= seen + todo
    && (forall key, dep :: key in seen && dep in DepsOf(requires_, key) ==> dep in seen + todo)
    && (forall t: set<string> :: permissions <= t && Closed(requires_, t) ==> seen + todo <= t)
  }

  lemma {:induction false} PopSeen(requires_: Requires, permissions: set<string>, seen: set<string>, todo: set<string>,
                                   key: string)
    requires Progress(requires_, permissions, seen, todo + {key}) && key in seen
    ensures Progress(requires_, permissions, seen, todo)
  {
    assert seen + (todo + {key}) == seen + todo;
  }

  lemma {:induction false} PopNew(requires_: Requires, permissions: set<string>, seen: set<string>, todo: set<string>,
                                  key: string)
    requires Progress(requires_, permissions, seen, todo + {key})
    ensures Progress(requires_, permissions, seen + {key}, todo + Elements(DepsOf(requires_, key)))
  {
    var deps := DepsOf(requires_, key);
    forall x, dep | x in seen + {key} && dep in DepsOf(requires_, x)
      ensures dep in seen + {key} + (todo + Elements(deps))
    {
      if x != key {
        assert dep in seen + (todo + {key});
      }
    }
    forall t: set<string> | permissions <= t && Closed(requires_, t)
      ensures seen + {key} + (todo + Elements(deps)) <= t
    {
      assert seen + (todo + {key}) <= t;
    }
  }

  lemma {:induction false} NothingLeft(requires_: Requires, permissions: set<string>, seen: set<string>)
    requires Progress(requires_, permissions, seen, {})
    ensures IsClosure(requires_, permissions, seen)
  {
    assert seen + {} == seen;
  }

  lemma {:induction false} ElementsOfPrefix(xs: seq<string>)
    requires xs != []
    ensures Elements(xs) == Elements(xs[..|xs| - 1]) + {xs[|xs| - 1]}
  {
    assert xs == xs[..|xs| - 1] + [xs[|xs| - 1]];
  }

  lemma {:induction false} ElementsAppend(xs: seq<string>, ys: seq<string>)
    ensures Elements(xs + ys) == Elements(xs) + Elements(ys)
  {
    forall x | x in Elements(xs) + Elements(ys)
      ensures x in xs + ys
    {
    }
  }

  /** The worklist of `closureOf`; cycles in `requires` are allowed. */
  method ClosureOf(permissions: seq<string>, requires_: Requires) returns (seen: set<string>)
    ensures IsClosure(requires_, Elements(permissions), seen)
  {
    seen := {};
    var stack := permissions;
    ghost var universe := Universe(requires_, permissions);
    while stack != []
      invariant seen <= universe && Elements(stack) <= universe
      invariant Progress(requires_, Elements(permissions), seen, Elements(stack))
      decreases universe - seen, |stack|
    {
      ElementsOfPrefix(stack);
      var key := stack[|stack| - 1];
      stack := stack[..|stack| - 1];
      assert key in universe;
      if key in seen {
        PopSeen(requires_, Elements(permissions), seen, Elements(stack), key);
        continue;
      }
      PopNew(requires_, Elements(permissions), seen, Elements(stack), key);
      ElementsAppend(stack, DepsOf(requires_, key));
      DepsInUniverse(requires_, permissions, key);
      seen := seen + {key};
      stack := PushAll(stack, DepsOf(requires_, key));
    }
    NothingLeft(requires_, Elements(permissions), seen);
  }

  lemma {:induction false} DepsInUniverse(requires_: Requires, permissions: seq<string>, key: string)
    ensures Elements(DepsOf(requires_, key)) <= Universe(requires_, permissions)
  {
  }

  method PushAll(stack: seq<string>, deps: seq<string>) returns (pushed: seq<string>)
    ensures pushed == stack + deps
  {
    pushed := stack;
    var k := 0;
    while k < |deps|
      invariant 0 <= k <= |deps| && pushed == stack + deps[..k]
    {
      pushed := pushed + [deps[k]];
      k := k + 1;
    }
  }

  // ----- what closures are

  lemma {:induction false} ClosureIsUnique(requires_: Requires, p: set<string>, s: set<string>, t: set<string>)
    requires IsClosure(requires_, p, s) && IsClosure(requires_, p, t)
    ensures s == t
  {
  }

  lemma {:induction false} ClosureIsIdempotent(requires_: Requires, p: set<string>, s: set<string>)
    requires IsClosure(requires_, p, s)
    ensures IsClosure(requires_, s, s)
  {
  }

  lemma {:induction false} ClosureIsMonotone(requires_: Requires, p: set<string>, q: set<string>, s: set<string>,
                                             t: set<string>)
    requires p <= q && IsClosure(requires_, p, s) && IsClosure(requires_, q, t)
    ensures s <= t
  {
  }

  lemma {:induction false} ClosureOfUnion(requires_: Requires, p: set<string>, q: set<string>, s: set<string>,
                                          t: set<string>)
    requires IsClosure(requires_, p, s) && IsClosure(requires_, q, t)
    ensures IsClosure(requires_, p + q, s + t)
  {
    forall u: set<string> | p + q <= u && Closed(requires_, u)
      ensures s + t <= u
    {
      assert p <= u && q <= u;
    }
  }

  /** A chain of requirements: each key is among the requirements of the one before. */
  predicate IsPath(requires_: Requires, path: seq<string>) {
    path != [] && forall k :: 0 <= k < |path| - 1 ==> path[k] in requires_ && path[k + 1] in requires_[path[k]]
  }

  ghost predicate Reachable(requires_: Requires, p: set<string>, key: string) {
    exists path :: IsPath(requires_, path) && path[0] in p && path[|path| - 1] == key
  }

  lemma {:induction false} PathStaysClosed(requires_: Requires, s: set<string>, path: seq<string>)
    requires Closed(requires_, s) && IsPath(requires_, path) && path[0] in s
    ensures path[|path| - 1] in s
    decreases |path|
  {
    var n := |path| - 1;
    if n > 0 {
      PathStaysClosed(requires_, s, path[..n]);
      assert path[n] in DepsOf(requires_, path[n - 1]);
    }
  }

  /** The closure is exact reachability: a permission is in it precisely when a chain of requirements leads to it. */
  lemma {:induction false} ClosureIsReachability(requires_: Requires, p: set<string>, s: set<string>, key: string)
    requires IsClosure(requires_, p, s)
    ensures key in s <==> Reachable(requires_, p, key)
  {
    var reached := set x | x in s && Reachable(requires_, p, x);
    forall x | x in p
      ensures x in reached
    {
      assert IsPath(requires_, [x]);
    }
    forall x, dep | x in reached && dep in DepsOf(requires_, x)
      ensures dep in reached
    {
      var path :| IsPath(requires_, path) && path[0] in p && path[|path| - 1] == x;
      var longer := path + [dep];
      assert IsPath(requires_, longer) && longer[0] in p && longer[|longer| - 1] == dep;
    }
    assert p <= reached && Closed(requires_, reached);
    if Reachable(requires_, p, key) {
      var path :| IsPath(requires_, path) && path[0] in p && path[|path| - 1] == key;
      PathStaysClosed(requires_, s, path);
    }
  }

  /** The closure as a set: what some chain of requirements leads to. */
  ghost function Closure(requires_: Requires, permissions: seq<string>): (s: set<string>) {
    set x | x in Universe(requires_, permissions) && Reachable(requires_, Elements(permissions), x)
  }

  lemma {:induction false} ClosureExists(requires_: Requires, permissions: seq<string>)
    ensures IsClosure(requires_, Elements(permissions), Closure(requires_, permissions))
  {
    var p, s := Elements(permissions), Closure(requires_, permissions);
    forall x | x in p
      ensures x in s
    {
      assert IsPath(requires_, [x]);
    }
    forall x, dep | x in s && dep in DepsOf(requires_, x)
      ensures dep in s
    {
      var path :| IsPath(requires_, path) && path[0] in p && path[|path| - 1] == x;
      var longer := path + [dep];
      assert IsPath(requires_, longer) && longer[0] in p && longer[|longer| - 1] == dep;
      DepsInUniverse(requires_, permissions, x);
    }
    assert Closed(requires_, s);
    forall t: set<string>, x | p <= t && Closed(requires_, t) && x in s
      ensures x in t
    {
      var path :| IsPath(requires_, path) && path[0] in p && path[|path| - 1] == x;
      PathStaysClosed(requires_, t, path);
    }
  }
}
