/** The agent orchestrator: a registry of agents, a pipeline that hands each result on to the next
    agent, and a run of several agents on one input. */
module Orchestrator {
  import opened Sequences

  /** What an input or a result dictionary holds. */
  datatype Value = Text(text: string) | Dict(entries: map<string, Value>)

  type Data = map<string, Value>

  /** An agent is its name and what it answers to an input. */
  datatype Agent = Agent(name: string, run: Data -> Data)

  type Registry = map<string, Agent>

  datatype Found = Missing | Present(agent: Agent)

  /** The results so far and the input the next agent sees. */
  datatype Progress = Progress(results: map<string, Data>, current: Data)

  const PREVIOUS := "previous_result"

  function NotFound(name: string): Data {
    map["error" := Text("Agent '" + name + "' not found")]
  }

  /** One round of the pipeline loop. */
  function Advance(agents: Registry, p: Progress, name: string): Progress {
    if name !in agents then p.(results := p.results[name := NotFound(name)])
    else
      var result := agents[name].run(p.current);
      Progress(p.results[name := result], p.current[PREVIOUS := Dict(result)])
  }

  /** The pipeline loop from a given state. */
  function Continue(agents: Registry, p: Progress, names: seq<string>): Progress
    decreases |names|
  {
    if names == [] then p else Continue(agents, Advance(agents, p, names[0]), names[1..])
  }

  function Pipeline(agents: Registry, input: Data, names: seq<string>): Progress {
    Continue(agents, Progress(map[], input), names)
  }

  function Answer(agents: Registry, input: Data, name: string): Data {
    if name in agents then agents[name].run(input) else NotFound(name)
  }

  function Find(agents: Registry, name: string): Found {
    if name in agents then Present(agents[name]) else Missing
  }

  class AgentOrchestrator {
    var agents: Registry

    constructor ()
      ensures agents == map[]
    {
      agents := map[];
    }

    /** A later agent of the same name replaces the earlier one. */
    method Register(agent: Agent)
      modifies this
      ensures agents == old(agents)[agent.name := agent]
      ensures Find(agents, agent.name) == Present(agent)
      ensures forall n :: n != agent.name ==> Find(agents, n) == Find(old(agents), n)
    {
      agents := agents[agent.name := agent];
    }

    method Get(name: string) returns (found: Found)
      ensures found.Missing? <==> name !in agents
      ensures found.Present? ==> found.agent == agents[name]
    {
      found := if name in agents then Present(agents[name]) else Missing;
    }

    method RunPipeline(input: Data, names: seq<string>) returns (out: Progress)
      ensures out == Pipeline(agents, input, names)
    {
      var results: map<string, Data> := map[];
      var current := input;
      for i := 0 to |names|
        invariant Pipeline(agents, input, names) == Continue(agents, Progress(results, current), names[i..])
      {
        assert names[i..][0] == names[i] && names[i..][1..] == names[i + 1..];
        var found := Get(names[i]);
        match found {
          case Missing =>
            results := results[names[i] := NotFound(names[i])];
          case Present(agent) =>
            var result := agent.run(current);
            results := results[names[i] := result];
            current := current[PREVIOUS := Dict(result)];
        }
      }
      out := Progress(results, current);
    }

    /** Every named agent answers the same input; the order of the names does not matter. */
    method RunParallel(input: Data, names: seq<string>) returns (results: map<string, Data>)
      ensures results.Keys == Elements(names)
      ensures forall n :: n in names ==>
                            results[n] == if n in agents then agents[n].run(input)
                                          else map["error" := Text("Agent '" + n + "' not found")]
    {
      var tasks: map<string, Found> := map[];
      for i := 0 to |names|
        invariant tasks.Keys == Elements(names[..i])
        invariant forall n :: n in tasks ==> tasks[n] == Find(agents, n)
      {
        assert Elements(names[..i + 1]) == Elements(names[..i]) + {names[i]};
        var found := Get(names[i]);
        tasks := tasks[names[i] := found];
      }
      assert names[..|names|] == names;
      results := map[];
      var left := tasks.Keys;
      while left != {}
        invariant left <= tasks.Keys
        invariant results.Keys == tasks.Keys - left
        invariant forall n :: n in results ==> results[n] == Answer(agents, input, n)
      {
        var name :| name in left;
        match tasks[name] {
          case Missing => results := results[name := NotFound(name)];
          case Present(agent) => results := results[name := agent.run(input)];
        }
        left := left - {name};
      }
      assert forall n :: n in names ==> n in Elements(names);
    }
  }

  // ---------------------------------------------------------------- compositionality

  /** The results of `later` laid over those of `earlier`. */
  function Overlay(earlier: map<string, Data>, later: Progress): Progress {
    later.(results := earlier + later.results)
  }

  lemma {:induction false} OverlayTwice(a: map<string, Data>, b: map<string, Data>, later: Progress)
    ensures Overlay(a, Overlay(b, later)) == Overlay(a + b, later)
  {
  }

  lemma {:induction false} AdvanceOverlays(agents: Registry, p: Progress, name: string)
    ensures Advance(agents, p, name) == Overlay(p.results, Advance(agents, Progress(map[], p.current), name))
  {
  }

  /** Results already there never influence the run; they are only overlaid. */
  lemma {:induction false} ContinueOverlays(agents: Registry, p: Progress, names: seq<string>)
    ensures Continue(agents, p, names) == Overlay(p.results, Continue(agents, Progress(map[], p.current), names))
    decreases |names|
  {
    if names == [] {
      assert p.results + map[] == p.results;
    } else {
      var next := Advance(agents, p, names[0]);
      var first := Advance(agents, Progress(map[], p.current), names[0]);
      AdvanceOverlays(agents, p, names[0]);
      ContinueOverlays(agents, next, names[1..]);
      ContinueOverlays(agents, first, names[1..]);
      OverlayTwice(p.results, first.results, Continue(agents, Progress(map[], next.current), names[1..]));
    }
  }

  lemma {:induction false} ContinueConcat(agents: Registry, p: Progress, xs: seq<string>, ys: seq<string>)
    ensures Continue(agents, p, xs + ys) == Continue(agents, Continue(agents, p, xs), ys)
    decreases |xs|
  {
    if xs == [] {
      assert xs + ys == ys;
    } else {
      assert (xs + ys)[0] == xs[0] && (xs + ys)[1..] == xs[1..] + ys;
      ContinueConcat(agents, Advance(agents, p, xs[0]), xs[1..], ys);
    }
  }

  /** Running `xs` and then `ys` is running `ys` on the final input of `xs`, with the later results
      laid over the earlier ones. */
  lemma {:induction false} PipelineComposes(agents: Registry, input: Data, xs: seq<string>, ys: seq<string>)
    ensures var first := Pipeline(agents, input, xs);
            var second := Pipeline(agents, first.current, ys);
            Pipeline(agents, input, xs + ys) == Overlay(first.results, second)
  {
    ContinueConcat(agents, Progress(map[], input), xs, ys);
    ContinueOverlays(agents, Pipeline(agents, input, xs), ys);
  }

  // ---------------------------------------------------------------- closed form

  /** The place of the last registered name before `i`, or -1. */
  function LastRegistered(agents: Registry, names: seq<string>, i: nat): (j: int)
    requires i <= |names|
    ensures -1 <= j < i && (j >= 0 ==> names[j] in agents)
    ensures forall k :: j < k < i ==> names[k] !in agents
  {
    if i == 0 then -1
    else if names[i - 1] in agents then i - 1
    else LastRegistered(agents, names, i - 1)
  }

  /** What the agent at place `i` sees: the original input, and the result of the closest
      registered agent before it. */
  function SeenAt(agents: Registry, input: Data, names: seq<string>, i: nat): Data
    requires i <= |names|
    decreases i
  {
    var j := LastRegistered(agents, names, i);
    if j < 0 then input
    else input[PREVIOUS := Dict(agents[names[j]].run(SeenAt(agents, input, names, j)))]
  }

  lemma {:induction false} SeenDependsOnPrefix(agents: Registry, input: Data, names: seq<string>, more: seq<string>,
                                               i: nat)
    requires i <= |names|
    ensures SeenAt(agents, input, names + more, i) == SeenAt(agents, input, names, i)
    decreases i
  {
    SameLastRegistered(agents, names, more, i);
    var j := LastRegistered(agents, names, i);
    if j >= 0 {
      SeenDependsOnPrefix(agents, input, names, more, j);
    }
  }

  lemma {:induction false} SameLastRegistered(agents: Registry, names: seq<string>, more: seq<string>, i: nat)
    requires i <= |names|
    ensures LastRegistered(agents, names + more, i) == LastRegistered(agents, names, i)
  {
    if i > 0 {
      SameLastRegistered(agents, names, more, i - 1);
    }
  }

  /** Place `i` is the last one that names its agent. */
  ghost predicate LastMention(names: seq<string>, i: nat) {
    i < |names| && forall k :: i < k < |names| ==> names[k] != names[i]
  }

  lemma {:induction false} PipelineSnoc(agents: Registry, input: Data, init: seq<string>, last: string)
    ensures Pipeline(agents, input, init + [last]) == Advance(agents, Pipeline(agents, input, init), last)
  {
    ContinueConcat(agents, Progress(map[], input), init, [last]);
    assert [last][1..] == [];
  }

  /** The final input is what one more agent would see. */
  lemma {:induction false} FinalInputExact(agents: Registry, input: Data, names: seq<string>)
    ensures Pipeline(agents, input, names).current == SeenAt(agents, input, names, |names|)
    decreases |names|
  {
    if names != [] {
      var init, last := names[..|names| - 1], names[|names| - 1];
      assert names == init + [last];
      FinalInputExact(agents, input, init);
      PipelineSnoc(agents, input, init, last);
      CurrentAfterLast(agents, input, init, last);
    }
  }

  /** The whole run in closed form: exactly the given names have results, and each is its agent's
      answer, at its last mention, to what that agent sees there. */
  lemma {:induction false} PipelineExact(agents: Registry, input: Data, names: seq<string>)
    ensures var out := Pipeline(agents, input, names);
            && out.results.Keys == Elements(names)
            && (forall i: nat :: LastMention(names, i) ==>
                  names[i] in out.results &&
                  out.results[names[i]] == Answer(agents, SeenAt(agents, input, names, i), names[i]))
    decreases |names|
  {
    if names != [] {
      var init, last := names[..|names| - 1], names[|names| - 1];
      assert names == init + [last];
      PipelineExact(agents, input, init);
      PipelineSnoc(agents, input, init, last);
      var before, out := Pipeline(agents, input, init), Pipeline(agents, input, names);
      assert Elements(names) == Elements(init) + {last};
      AdvanceResult(agents, before, last);
      forall i: nat | LastMention(names, i)
        ensures out.results[names[i]] == Answer(agents, SeenAt(agents, input, names, i), names[i])
      {
        SeenDependsOnPrefix(agents, input, init, [last], i);
        if i < |init| {
          MentionBefore(init, last, i);
        } else {
          FinalInputExact(agents, input, init);
        }
      }
    }
  }

  lemma {:induction false} MentionBefore(init: seq<string>, last: string, i: nat)
    requires i < |init| && LastMention(init + [last], i)
    ensures LastMention(init, i) && init[i] != last
  {
    var names := init + [last];
    assert names[|init|] == last;
    assert forall k :: i < k < |init| ==> init[k] == names[k];
  }

  lemma {:induction false} AdvanceResult(agents: Registry, p: Progress, name: string)
    ensures Advance(agents, p, name).results == p.results[name := Answer(agents, p.current, name)]
  {
  }

  lemma {:induction false} CurrentAfterLast(agents: Registry, input: Data, init: seq<string>, last: string)
    ensures Advance(agents, Progress(map[], SeenAt(agents, input, init, |init|)), last).current ==
            SeenAt(agents, input, init + [last], |init| + 1)
  {
    var names := init + [last];
    SeenDependsOnPrefix(agents, input, init, [last], |init|);
    SameLastRegistered(agents, init, [last], |init|);
    if last in agents {
      assert LastRegistered(agents, names, |init| + 1) == |init|;
      var seen := SeenAt(agents, input, init, |init|);
      var result := Dict(agents[last].run(seen));
      assert seen[PREVIOUS := result] == input[PREVIOUS := result];
    }
  }

  /** The final input differs from the given one at `previous_result` at most. */
  lemma {:induction false} FinalInputKeepsTheRest(agents: Registry, input: Data, names: seq<string>, key: string)
    requires key != "previous_result"
    ensures var final := Pipeline(agents, input, names).current;
            (key in final <==> key in input) && (key in input ==> final[key] == input[key])
  {
    FinalInputExact(agents, input, names);
  }

  /** A name that no agent has gets the error as its result, with the name in it. */
  lemma {:induction false} UnregisteredResult(agents: Registry, input: Data, names: seq<string>, n: string)
    requires n in names && n !in agents
    ensures n in Pipeline(agents, input, names).results
    ensures Pipeline(agents, input, names).results[n] == map["error" := Text("Agent '" + n + "' not found")]
  {
    PipelineExact(agents, input, names);
    var i := LastMentionOf(names, n);
  }

  /** When the last agent of a pipeline is registered, its result is in the final input, under
      "previous_result"; a pipeline of unregistered names leaves the input as it was. */
  lemma {:induction false} LastResultIsHandedOn(agents: Registry, input: Data, init: seq<string>, last: string)
    ensures var before, out := Pipeline(agents, input, init), Pipeline(agents, input, init + [last]);
            if last in agents
            then last in out.results && out.results[last] == agents[last].run(before.current) &&
                 out.current == before.current["previous_result" := Dict(out.results[last])]
            else out.current == before.current
  {
    PipelineSnoc(agents, input, init, last);
  }

  // ---------------------------------------------------------------- unregistered names

  /** The registered names, in order. */
  function Registered(agents: Registry, names: seq<string>): seq<string> {
    if names == [] then []
    else (if names[0] in agents then [names[0]] else []) + Registered(agents, names[1..])
  }

  /** Leaving out unregistered names changes no registered agent's result and not the final input. */
  lemma {:induction false} PipelineOfRegistered(agents: Registry, input: Data, names: seq<string>)
    ensures var all, only := Pipeline(agents, input, names), Pipeline(agents, input, Registered(agents, names));
            && all.current == only.current
            && (forall n :: n in agents ==> (n in all.results <==> n in only.results))
            && (forall n :: n in agents && n in all.results ==> all.results[n] == only.results[n])
  {
    UnregisteredAreInert(agents, Progress(map[], input), Progress(map[], input), names);
  }

  lemma {:induction false} UnregisteredAreInert(agents: Registry, p: Progress, q: Progress, names: seq<string>)
    requires p.current == q.current
    requires forall n :: n in agents ==> (n in p.results <==> n in q.results)
    requires forall n :: n in agents && n in p.results ==> p.results[n] == q.results[n]
    ensures var all, only := Continue(agents, p, names), Continue(agents, q, Registered(agents, names));
            && all.current == only.current
            && (forall n :: n in agents ==> (n in all.results <==> n in only.results))
            && (forall n :: n in agents && n in all.results ==> all.results[n] == only.results[n])
    decreases |names|
  {
    if names != [] {
      var rest := Registered(agents, names[1..]);
      if names[0] in agents {
        assert Registered(agents, names)[0] == names[0] && Registered(agents, names)[1..] == rest;
        UnregisteredAreInert(agents, Advance(agents, p, names[0]), Advance(agents, q, names[0]), names[1..]);
      } else {
        assert Registered(agents, names) == rest;
        UnregisteredAreInert(agents, Advance(agents, p, names[0]), q, names[1..]);
      }
    }
  }

  // ---------------------------------------------------------------- pipeline and parallel run

  /** The agent answers the same whatever the previous result is. */
  ghost predicate IgnoresPrevious(agent: Agent) {
    forall input: Data, v: Value :: AnswersAlike(agent, input, v)
  }

  predicate AnswersAlike(agent: Agent, input: Data, v: Value) {
    agent.run(input[PREVIOUS := v]) == agent.run(input)
  }

  /** When no registered agent among those named looks at the previous result, the pipeline and the
      parallel run give the same results. */
  lemma {:induction false} PipelineIsParallel(agents: Registry, input: Data, names: seq<string>)
    requires forall n :: n in names && n in agents ==> IgnoresPrevious(agents[n])
    ensures Pipeline(agents, input, names).results.Keys == Elements(names)
    ensures forall n :: n in names ==> Pipeline(agents, input, names).results[n] == Answer(agents, input, n)
  {
    PipelineExact(agents, input, names);
    var results := Pipeline(agents, input, names).results;
    forall n | n in names
      ensures n in results && results[n] == Answer(agents, input, n)
    {
      assert n in Elements(names);
      var i := LastMentionOf(names, n);
      assert results[n] == Answer(agents, SeenAt(agents, input, names, i), n);
      if n in agents {
        assert IgnoresPrevious(agents[n]);
        var j := LastRegistered(agents, names, i);
        if j >= 0 {
          assert AnswersAlike(agents[n], input, Dict(agents[names[j]].run(SeenAt(agents, input, names, j))));
        }
      }
    }
  }

  lemma {:induction false} LastMentionOf(names: seq<string>, n: string) returns (i: nat)
    requires n in names
    ensures LastMention(names, i) && names[i] == n
    decreases |names|
  {
    if names[|names| - 1] == n {
      i := |names| - 1;
    } else {
      var init := names[..|names| - 1];
      assert names == init + [names[|names| - 1]];
      i := LastMentionOf(init, n);
      assert forall k :: i < k < |init| ==> names[k] == init[k];
    }
  }
}
