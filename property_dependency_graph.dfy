/**
 * The entry step of the property dependency closure of
 * Chummer/Backend/Datastructures/PropertyDependencyGraph.cs. The node dictionary is a map from
 * key to node. The conditions on upstream edges, evaluated on the parent instance, and the base
 * class's `CollectDependents` are parameters: a condition id maps to pass, fail or throw, and
 * `collect` either gives the strings it adds to the set it was handed, or throws.
 */
module PropertyDependencyGraphs {
  import opened Common

  /** What evaluating an edge's condition on the parent instance does. */
  datatype Verdict = Pass | Fail | Throws

  /** An edge condition: null, or a delegate. */
  datatype Condition = NoCondition | Condition(id: nat)

  /** `DependencyGraphNodeWithCondition`: the upstream node's object and its two conditions. */
  datatype Edge = Edge(target: string, condition: Condition, asyncCondition: Condition)

  /** `DependencyGraphNode`: the node's own object and its upstream edges, in order. */
  datatype Node = Node(myObject: string, upstream: seq<Edge>)

  /** `NodeDictionary`. */
  type Graph = map<string, Node>

  /** `CollectDependents(instance, target, set)`: the strings it adds, or an exception. */
  datatype Collected = Collected(added: set<string>) | CollectThrew

  datatype Failure = Exception | Cancelled

  type Outcome<R> = Result<R, Failure>

  /**
   * Whether an edge is followed: a null condition always is; otherwise the condition decides
   * (the synchronous one for the synchronous variant, the awaited async one for the async variant).
   */
  function EdgeVerdict(e: Edge, eval: nat -> Verdict, useAsync: bool): (v: Verdict)
    ensures (if useAsync then e.asyncCondition else e.condition).NoCondition? ==> v == Pass
  {
    var c := if useAsync then e.asyncCondition else e.condition;
    if c.NoCondition? then Pass else eval(c.id)
  }

  /** The set after walking `edges` in order from `acc`: followed edges collect, failing ones are skipped. */
  function FollowEdges(edges: seq<Edge>, eval: nat -> Verdict, collect: (string, set<string>) -> Collected,
                       useAsync: bool, acc: set<string>): (r: Outcome<set<string>>)
    ensures r.Ok? ==> acc <= r.value
    ensures r.Err? ==> r.error == Exception
    decreases |edges|
  {
    if edges == [] then Ok(acc)
    else
      var v := EdgeVerdict(edges[0], eval, useAsync);
      if v == Throws then Err(Exception)
      else if v == Fail then FollowEdges(edges[1..], eval, collect, useAsync, acc)
      else match collect(edges[0].target, acc)
        case CollectThrew => Err(Exception)
        case Collected(added) => FollowEdges(edges[1..], eval, collect, useAsync, acc + added)
  }

  /**
   * The set `GetWithAllDependents` builds: an unknown key gives exactly `{key}`; a known one
   * gives its node's own object plus whatever the followed upstream edges collect.
   */
  function AllDependents(graph: Graph, key: string, eval: nat -> Verdict,
                         collect: (string, set<string>) -> Collected, useAsync: bool): (r: Outcome<set<string>>)
    ensures key !in graph ==> r == Ok({key})
    ensures key in graph && r.Ok? ==> graph[key].myObject in r.value
  {
    if key in graph then FollowEdges(graph[key].upstream, eval, collect, useAsync, {graph[key].myObject})
    else Ok({key})
  }

  /** When every condition fails, nothing is collected. */
  lemma {:induction false} FailingConditionsCollectNothing(edges: seq<Edge>, eval: nat -> Verdict,
                                                           collect: (string, set<string>) -> Collected,
                                                           useAsync: bool, acc: set<string>)
    requires forall i :: 0 <= i < |edges| ==> EdgeVerdict(edges[i], eval, useAsync) == Fail
    ensures FollowEdges(edges, eval, collect, useAsync, acc) == Ok(acc)
  {
    if edges != [] {
      FailingConditionsCollectNothing(edges[1..], eval, collect, useAsync, acc);
    }
  }

  /**
   * When every edge has a null condition and `CollectDependents` adds at least the target it is
   * given (as collecting a node's dependents does), every upstream target ends up in the set.
   */
  lemma {:induction false} NullConditionsFollowEveryEdge(edges: seq<Edge>, eval: nat -> Verdict,
                                                         collect: (string, set<string>) -> Collected,
                                                         useAsync: bool, acc: set<string>)
    requires forall i :: 0 <= i < |edges| ==> (if useAsync then edges[i].asyncCondition else edges[i].condition).NoCondition?
    requires forall t, s :: collect(t, s).Collected? && t in collect(t, s).added
    ensures FollowEdges(edges, eval, collect, useAsync, acc).Ok?
    ensures forall i :: 0 <= i < |edges| ==> edges[i].target in FollowEdges(edges, eval, collect, useAsync, acc).value
  {
    if edges != [] {
      var next := acc + collect(edges[0].target, acc).added;
      NullConditionsFollowEveryEdge(edges[1..], eval, collect, useAsync, next);
      assert FollowEdges(edges, eval, collect, useAsync, acc) == FollowEdges(edges[1..], eval, collect, useAsync, next);
      forall i | 1 <= i < |edges|
        ensures edges[i].target in FollowEdges(edges, eval, collect, useAsync, acc).value
      {
        assert edges[i] == edges[1..][i - 1];
      }
    }
  }

  /** The synchronous and asynchronous variants agree whenever their conditions do. */
  lemma {:induction false} VariantsAgree(edges: seq<Edge>, eval: nat -> Verdict,
                                         collect: (string, set<string>) -> Collected, acc: set<string>)
    requires forall i :: 0 <= i < |edges| ==> EdgeVerdict(edges[i], eval, false) == EdgeVerdict(edges[i], eval, true)
    ensures FollowEdges(edges, eval, collect, false, acc) == FollowEdges(edges, eval, collect, true, acc)
  {
    if edges != [] {
      var v := EdgeVerdict(edges[0], eval, false);
      if v == Fail {
        VariantsAgree(edges[1..], eval, collect, acc);
      } else if v == Pass && collect(edges[0].target, acc).Collected? {
        VariantsAgree(edges[1..], eval, collect, acc + collect(edges[0].target, acc).added);
      }
    }
  }

  class PropertyDependencyGraph {
    /** `NodeDictionary`, built by the base class. */
    const nodes: Graph
    /** `Utils.StringHashSetPool`. */
    const pool: Pool

    constructor (nodes: Graph, pool: Pool)
      ensures this.nodes == nodes && this.pool == pool
    {
      this.nodes := nodes;
      this.pool := pool;
    }

    /**
     * The body inside the `try` of both variants: add the node's object to the (empty) set, then
     * walk the upstream edges in order, collecting for each followed one.
     */
    method Collect(key: string, eval: nat -> Verdict, collect: (string, set<string>) -> Collected,
                   useAsync: bool) returns (r: Outcome<set<string>>)
      ensures r == AllDependents(nodes, key, eval, collect, useAsync)
    {
      var setReturn: set<string> := {};
      if key !in nodes {
        setReturn := setReturn + {key};
        assert setReturn == {key};
        return Ok(setReturn);
      }
      var node := nodes[key];
      if node.myObject in setReturn {
        return Ok(setReturn);
      }
      setReturn := setReturn + {node.myObject};
      assert setReturn == {node.myObject} && node.upstream[0..] == node.upstream;
      var i := 0;
      while i < |node.upstream|
        invariant 0 <= i <= |node.upstream|
        invariant AllDependents(nodes, key, eval, collect, useAsync)
               == FollowEdges(node.upstream[i..], eval, collect, useAsync, setReturn)
      {
        var e := node.upstream[i];
        assert node.upstream[i..][0] == e && node.upstream[i..][1..] == node.upstream[i + 1..];
        var v := EdgeVerdict(e, eval, useAsync);
        if v == Throws {
          return Err(Exception);
        }
        if v == Pass {
          var c := collect(e.target, setReturn);
          if c.CollectThrew? {
            return Err(Exception);
          }
          setReturn := setReturn + c.added;
        }
        i := i + 1;
      }
      return Ok(setReturn);
    }

    /**
     * `GetWithAllDependents(instance, key, usePool)`. With pooling the set comes from the pool;
     * on an exception it goes back exactly once before the rethrow, and on success it stays
     * with the caller. Without pooling the pool is untouched.
     */
    method GetWithAllDependents(key: string, eval: nat -> Verdict, collect: (string, set<string>) -> Collected,
                                usePool: bool) returns (r: Outcome<set<string>>)
      modifies pool
      ensures r == AllDependents(nodes, key, eval, collect, false)
      ensures usePool ==> pool.gets == old(pool.gets) + 1
      ensures usePool ==> pool.returned == old(pool.returned) + (if r.Err? then 1 else 0)
      ensures !usePool ==> pool.gets == old(pool.gets) && pool.returned == old(pool.returned)
    {
      if usePool {
        pool.Get();
      }
      r := Collect(key, eval, collect, false);
      if r.Err? && usePool {
        pool.Return();
      }
    }

    /**
     * `GetWithAllDependentsAsync(instance, key, usePool, token)`: a cancelled token throws before
     * anything is fetched; otherwise as the synchronous variant with the async conditions.
     */
    method GetWithAllDependentsAsync(key: string, eval: nat -> Verdict, collect: (string, set<string>) -> Collected,
                                     usePool: bool, cancelled: bool) returns (r: Outcome<set<string>>)
      modifies pool
      ensures cancelled ==> r == Err(Cancelled) && pool.gets == old(pool.gets) && pool.returned == old(pool.returned)
      ensures !cancelled ==> r == AllDependents(nodes, key, eval, collect, true)
      ensures !cancelled && usePool ==> pool.gets == old(pool.gets) + 1
      ensures !cancelled && usePool ==> pool.returned == old(pool.returned) + (if r.Err? then 1 else 0)
      ensures !usePool ==> pool.gets == old(pool.gets) && pool.returned == old(pool.returned)
    {
      if cancelled {
        return Err(Cancelled);
      }
      if usePool {
        pool.Get();
      }
      r := Collect(key, eval, collect, true);
      if r.Err? && usePool {
        pool.Return();
      }
    }

    /**
     * `GetWithAllDependentsEnumerable(instance, key)`: the elements of the pooled set, each once;
     * the set goes back to the pool exactly once on every path.
     */
    method GetWithAllDependentsEnumerable(key: string, eval: nat -> Verdict,
                                          collect: (string, set<string>) -> Collected) returns (r: Outcome<seq<string>>)
      modifies pool
      ensures r.Err? <==> AllDependents(nodes, key, eval, collect, false).Err?
      ensures r.Ok? ==> Enumerates(r.value, AllDependents(nodes, key, eval, collect, false).value)
      ensures pool.gets == old(pool.gets) + 1 && pool.returned == old(pool.returned) + 1
    {
      var s := GetWithAllDependents(key, eval, collect, true);
      if s.Err? {
        return Err(s.error);
      }
      var elements := Enumerate(s.value);
      pool.Return();
      return Ok(elements);
    }

    /**
     * `GetWithAllDependentsEnumerableAsync(instance, key, token)`: a list copy of the pooled set,
     * after which the set goes back to the pool; a cancelled token fetches nothing.
     */
    method GetWithAllDependentsEnumerableAsync(key: string, eval: nat -> Verdict,
                                               collect: (string, set<string>) -> Collected,
                                               cancelled: bool) returns (r: Outcome<seq<string>>)
      modifies pool
      ensures cancelled ==> r == Err(Cancelled) && pool.gets == old(pool.gets) && pool.returned == old(pool.returned)
      ensures !cancelled ==> (r.Err? <==> AllDependents(nodes, key, eval, collect, true).Err?)
      ensures !cancelled && r.Ok? ==> Enumerates(r.value, AllDependents(nodes, key, eval, collect, true).value)
      ensures !cancelled ==> pool.gets == old(pool.gets) + 1 && pool.returned == old(pool.returned) + 1
    {
      var s := GetWithAllDependentsAsync(key, eval, collect, true, cancelled);
      if s.Err? {
        return Err(s.error);
      }
      var elements := Enumerate(s.value);
      pool.Return();
      return Ok(elements);
    }
  }
}
