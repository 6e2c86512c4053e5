/** The stack of inputs, and what is put back when an input has been drained. */
module InputScopes {
  import opened Sequences
  import opened Wrappers

  /** An input and an entity stand for their identity. */
  type Input = int
  type Entity = int

  /** A value saved for the time an input is on the stack. */
  datatype Scope<T> = Scope(input: Input, saved: T)

  // ----- one stack of frames -----

  /** An input with what its removal puts back, and the external parameter entity it is the text of. */
  datatype Frame = Frame(input: Input, base: Option<string>, version: Option<string>, entity: Option<Entity>)

  datatype State = State(frames: seq<Frame>, base: string, version: string)

  /** An empty base URI or version leaves the current one. */
  function Pushed(s: State, input: Input, base: string, version: string, entity: Option<Entity>): State {
    State(
      s.frames + [Frame(
        input, if base == "" then None else Some(s.base), if version == "" then None else Some(s.version), entity)],
      if base == "" then s.base else base,
      if version == "" then s.version else version)
  }

  function Popped(s: State): State {
    if s.frames == [] then s
    else
      var f := s.frames[|s.frames| - 1];
      State(
        s.frames[..|s.frames| - 1],
        if f.base.Some? then f.base.value else s.base,
        if f.version.Some? then f.version.value else s.version)
  }

  lemma PoppedTop(s: State, f: Frame, fs: seq<Frame>)
    requires s.frames != [] && f == s.frames[|s.frames| - 1] && fs == s.frames[..|s.frames| - 1]
    ensures Popped(s) == State(
      fs, if f.base.Some? then f.base.value else s.base, if f.version.Some? then f.version.value else s.version)
  {
  }

  /** The state once all but the first `n` inputs are removed. */
  function Unwound(s: State, n: nat): State
    requires n <= |s.frames|
    decreases |s.frames|
  {
    if |s.frames| == n then s else Unwound(Popped(s), n)
  }

  lemma PushedPopped(s: State, input: Input, base: string, version: string, entity: Option<Entity>)
    ensures Popped(Pushed(s, input, base, version, entity)) == s
  {
    var t := Pushed(s, input, base, version, entity);
    assert t.frames[..|s.frames|] == s.frames;
  }

  datatype Step = Push(input: Input, base: string, version: string, entity: Option<Entity>) | Pop

  function Taken(s: State, step: Step): State {
    match step
    case Push(input, base, version, entity) => Pushed(s, input, base, version, entity)
    case Pop => Popped(s)
  }

  function Run(s: State, steps: seq<Step>): State
    decreases steps
  {
    if steps == [] then s else Run(Taken(s, steps[0]), steps[1..])
  }

  /** The run never removes one of the first `n` inputs. */
  predicate StaysAbove(s: State, steps: seq<Step>, n: nat)
    decreases steps
  {
    |s.frames| >= n && (steps != [] ==> StaysAbove(Taken(s, steps[0]), steps[1..], n))
  }

  lemma {:induction false} RunUnwinds(s: State, steps: seq<Step>, n: nat)
    requires StaysAbove(s, steps, n)
    ensures |Run(s, steps).frames| >= n && Unwound(Run(s, steps), n) == Unwound(s, n)
    decreases steps
  {
    if steps != [] {
      var t := Taken(s, steps[0]);
      RunUnwinds(t, steps[1..], n);
      if steps[0].Push? {
        PushedPopped(s, steps[0].input, steps[0].base, steps[0].version, steps[0].entity);
      }
    }
  }

  /** A run that never goes below the depth it starts from and ends there restores everything. */
  lemma BalancedRestores(s: State, steps: seq<Step>)
    requires StaysAbove(s, steps, |s.frames|) && |Run(s, steps).frames| == |s.frames|
    ensures Run(s, steps) == s
  {
    RunUnwinds(s, steps, |s.frames|);
  }

  // ----- the scopes kept beside the stack -----

  function BaseScopes(fs: seq<Frame>): seq<Scope<string>> {
    if fs == [] then []
    else
      var f := fs[|fs| - 1];
      BaseScopes(fs[..|fs| - 1]) + if f.base.Some? then [Scope(f.input, f.base.value)] else []
  }

  function VersionScopes(fs: seq<Frame>): seq<Scope<string>> {
    if fs == [] then []
    else
      var f := fs[|fs| - 1];
      VersionScopes(fs[..|fs| - 1]) + if f.version.Some? then [Scope(f.input, f.version.value)] else []
  }

  function EntityScopes(fs: seq<Frame>): seq<Scope<Entity>> {
    if fs == [] then []
    else
      var f := fs[|fs| - 1];
      EntityScopes(fs[..|fs| - 1]) + if f.entity.Some? then [Scope(f.input, f.entity.value)] else []
  }

  function Inputs(fs: seq<Frame>): (r: seq<Input>)
    ensures |r| == |fs| && forall i :: 0 <= i < |r| ==> r[i] == fs[i].input
  {
    if fs == [] then [] else Inputs(fs[..|fs| - 1]) + [fs[|fs| - 1].input]
  }

  /** How often the entity is on the stack. */
  function Uses(fs: seq<Frame>, e: Entity): nat {
    if fs == [] then 0 else Uses(fs[..|fs| - 1], e) + if fs[|fs| - 1].entity == Some(e) then 1 else 0
  }

  /** No entity is on the stack twice. */
  predicate NoRecursion(fs: seq<Frame>) {
    forall i, j :: 0 <= i < j < |fs| ==> fs[i].entity.None? || fs[i].entity != fs[j].entity
  }

  lemma {:induction false} ScopeInputs(fs: seq<Frame>)
    ensures forall k :: 0 <= k < |BaseScopes(fs)| ==> BaseScopes(fs)[k].input in Inputs(fs)
    ensures forall k :: 0 <= k < |VersionScopes(fs)| ==> VersionScopes(fs)[k].input in Inputs(fs)
    ensures forall k :: 0 <= k < |EntityScopes(fs)| ==> EntityScopes(fs)[k].input in Inputs(fs)
  {
    if fs != [] {
      ScopeInputs(fs[..|fs| - 1]);
    }
  }

  /** The topmost scope belongs to the topmost input exactly when that input has one. */
  lemma TopScopes(fs: seq<Frame>)
    requires fs != [] && Distinct(Inputs(fs))
    ensures var f, b := fs[|fs| - 1], BaseScopes(fs);
      f.base.Some? <==> b != [] && b[|b| - 1].input == f.input
    ensures var f, v := fs[|fs| - 1], VersionScopes(fs);
      f.version.Some? <==> v != [] && v[|v| - 1].input == f.input
    ensures var f, e := fs[|fs| - 1], EntityScopes(fs);
      f.entity.Some? <==> e != [] && e[|e| - 1].input == f.input
  {
    var n := |fs| - 1;
    ScopeInputs(fs[..n]);
    forall i | i in Inputs(fs[..n]) ensures i != fs[n].input {
      var k :| 0 <= k < n && Inputs(fs[..n])[k] == i;
      assert Inputs(fs)[k] != Inputs(fs)[n];
    }
  }

  lemma {:induction false} UsesPositive(fs: seq<Frame>, e: Entity)
    ensures Uses(fs, e) > 0 <==> exists i :: 0 <= i < |fs| && fs[i].entity == Some(e)
  {
    if fs != [] {
      var n := |fs| - 1;
      UsesPositive(fs[..n], e);
      if Uses(fs[..n], e) > 0 {
        var i :| 0 <= i < n && fs[..n][i].entity == Some(e);
        assert fs[i].entity == Some(e);
      }
    }
  }

  /** The counts are how often each entity is on the stack; entities that are not have none. */
  ghost predicate Counted(counts: map<Entity, int>, fs: seq<Frame>) {
    && (forall e :: e in counts <==> Uses(fs, e) > 0)
    && (forall e :: e in counts ==> counts[e] == Uses(fs, e))
  }

  lemma CountedPushed(counts: map<Entity, int>, fs: seq<Frame>, f: Frame)
    requires Counted(counts, fs)
    ensures Counted(
      if f.entity.None? then counts
      else counts[f.entity.value := 1 + if f.entity.value in counts then counts[f.entity.value] else 0], fs + [f])
  {
    assert (fs + [f])[..|fs|] == fs;
    assert forall e :: Uses(fs + [f], e) == Uses(fs, e) + if f.entity == Some(e) then 1 else 0;
  }

  lemma CountedPopped(counts: map<Entity, int>, fs: seq<Frame>)
    requires fs != [] && Counted(counts, fs)
    ensures fs[|fs| - 1].entity.Some? ==> fs[|fs| - 1].entity.value in counts
    ensures var n := |fs| - 1;
      Counted(if fs[n].entity.None? then counts else Released(counts, fs[n].entity.value), fs[..n])
  {
    var n := |fs| - 1;
    forall e
      ensures var r := if fs[n].entity.None? then counts else Released(counts, fs[n].entity.value);
        (e in r <==> Uses(fs[..n], e) > 0) && (e in r ==> r[e] == Uses(fs[..n], e))
    {
      assert Uses(fs, e) == Uses(fs[..n], e) + if fs[n].entity == Some(e) then 1 else 0;
    }
  }

  function Released(counts: map<Entity, int>, e: Entity): map<Entity, int>
    requires e in counts
  {
    if counts[e] <= 1 then counts - {e} else counts[e := counts[e] - 1]
  }

  class InputStack {
    var inputTab: seq<Input>
    var baseURI: string
    var version: string
    var baseURIScopes: seq<Scope<string>>
    var versionScopes: seq<Scope<string>>
    var externalPEScopes: seq<Scope<Entity>>
    var activeExternalPECount: map<Entity, int>
    ghost var frames: seq<Frame>

    constructor (base: string, ver: string)
      ensures Valid() && Now() == State([], base, ver)
    {
      inputTab, baseURI, version := [], base, ver;
      baseURIScopes, versionScopes, externalPEScopes, activeExternalPECount := [], [], [], map[];
      frames := [];
    }

    ghost function Now(): State
      reads this
    {
      State(frames, baseURI, version)
    }

    /** The three stacks and the counts are those of one stack of frames, on which no input is twice. */
    ghost predicate Valid()
      reads this
    {
      && inputTab == Inputs(frames) && Distinct(inputTab)
      && baseURIScopes == BaseScopes(frames) && versionScopes == VersionScopes(frames)
      && externalPEScopes == EntityScopes(frames)
      && Counted(activeExternalPECount, frames)
    }

    lemma Grown(f: Frame)
      requires Valid() && f.input !in inputTab
      ensures var fs := frames + [f];
        && Inputs(fs) == inputTab + [f.input] && Distinct(inputTab + [f.input])
        && BaseScopes(fs) == BaseScopes(frames) + (if f.base.Some? then [Scope(f.input, f.base.value)] else [])
        && VersionScopes(fs) == VersionScopes(frames) + (if f.version.Some? then [Scope(f.input, f.version.value)] else [])
        && EntityScopes(fs) == EntityScopes(frames) + (if f.entity.Some? then [Scope(f.input, f.entity.value)] else [])
    {
      assert (frames + [f])[..|frames|] == frames;
    }

    /** `pushInput`, `pushInputWithBaseURI` and `pushInputWithVersion`: a fresh input, with what it overrides. */
    method PushInput(input: Input, base: string, ver: string)
      requires Valid() && input !in inputTab
      modifies this
      ensures Valid() && Now() == Pushed(old(Now()), input, base, ver, None)
      ensures baseURI == (if base != "" then base else old(baseURI)) && version == (if ver != "" then ver else old(version))
      ensures inputTab == old(inputTab) + [input]
    {
      hide Inputs, Distinct, BaseScopes, VersionScopes, EntityScopes, Counted;
      ghost var f := Frame(
        input, if base == "" then None else Some(baseURI), if ver == "" then None else Some(version), None);
      Grown(f);
      CountedPushed(activeExternalPECount, frames, f);
      if base != "" {
        baseURIScopes := baseURIScopes + [Scope(input, baseURI)];
        baseURI := base;
      }
      inputTab := inputTab + [input];
      if ver != "" {
        versionScopes := versionScopes + [Scope(input, version)];
        version := ver;
      }
      frames := frames + [f];
    }

    /** `pushExternalPEInput` */
    method PushExternalPEInput(input: Input, base: string, ver: string, e: Entity)
      requires Valid() && input !in inputTab
      modifies this
      ensures Valid() && Now() == Pushed(old(Now()), input, base, ver, Some(e))
      ensures baseURI == (if base != "" then base else old(baseURI)) && version == (if ver != "" then ver else old(version))
      ensures inputTab == old(inputTab) + [input]
    {
      hide Inputs, Distinct, BaseScopes, VersionScopes, EntityScopes, Counted;
      ghost var f := Frame(
        input, if base == "" then None else Some(baseURI), if ver == "" then None else Some(version), Some(e));
      Grown(f);
      CountedPushed(activeExternalPECount, frames, f);
      if base != "" {
        baseURIScopes := baseURIScopes + [Scope(input, baseURI)];
        baseURI := base;
      }
      inputTab := inputTab + [input];
      if ver != "" {
        versionScopes := versionScopes + [Scope(input, version)];
        version := ver;
      }
      activeExternalPECount :=
        activeExternalPECount[e := 1 + if e in activeExternalPECount then activeExternalPECount[e] else 0];
      externalPEScopes := externalPEScopes + [Scope(input, e)];
      frames := frames + [f];
    }

    lemma Shrunk()
      requires Valid() && frames != []
      ensures var n := |frames| - 1;
        var f, fs := frames[n], frames[..n];
        && inputTab == Inputs(fs) + [f.input] && Distinct(Inputs(fs))
        && baseURIScopes == BaseScopes(fs) + (if f.base.Some? then [Scope(f.input, f.base.value)] else [])
        && versionScopes == VersionScopes(fs) + (if f.version.Some? then [Scope(f.input, f.version.value)] else [])
        && externalPEScopes == EntityScopes(fs) + (if f.entity.Some? then [Scope(f.input, f.entity.value)] else [])
    {
      var fs := frames[..|frames| - 1];
      forall i, j | 0 <= i < j < |fs| ensures Inputs(fs)[i] != Inputs(fs)[j] {
        assert inputTab[i] != inputTab[j];
      }
    }

    /** `popInput`: each scope is dropped if it was made for this very input. */
    method PopInput() returns (popped: Option<Input>)
      requires Valid()
      modifies this
      ensures Valid() && Now() == Popped(old(Now()))
      ensures popped == if old(inputTab) == [] then None else Some(old(inputTab)[|old(inputTab)| - 1])
    {
      hide Inputs, Distinct, BaseScopes, VersionScopes, EntityScopes, Counted, Released;
      if |inputTab| == 0 {
        return None;
      }
      popped := Some(inputTab[|inputTab| - 1]);
      PopTop();
    }

    method PopTop()
      requires Valid() && inputTab != []
      modifies this
      ensures Valid() && Now() == Popped(old(Now())) && frames == old(frames[..|frames| - 1])
    {
      hide Inputs, Distinct, BaseScopes, VersionScopes, EntityScopes, Counted, Released, Popped;
      ghost var f, fs := TopFrame();
      PoppedTop(Now(), f, fs);
      var input := inputTab[|inputTab| - 1];
      inputTab := inputTab[..|inputTab| - 1];
      RestoreBase(input, f, BaseScopes(fs));
      RestoreVersion(input, f, VersionScopes(fs));
      RestoreEntity(input, f, EntityScopes(fs));
      frames := fs;
    }

    /** The topmost frame and what the scopes hold of it. */
    lemma TopFrame() returns (f: Frame, fs: seq<Frame>)
      requires Valid() && frames != []
      ensures f == frames[|frames| - 1] && fs == frames[..|frames| - 1]
      ensures inputTab == Inputs(fs) + [f.input] && Distinct(Inputs(fs))
      ensures baseURIScopes == BaseScopes(fs) + if f.base.Some? then [Scope(f.input, f.base.value)] else []
      ensures versionScopes == VersionScopes(fs) + if f.version.Some? then [Scope(f.input, f.version.value)] else []
      ensures externalPEScopes == EntityScopes(fs) + if f.entity.Some? then [Scope(f.input, f.entity.value)] else []
      ensures f.base.Some? <==> baseURIScopes != [] && baseURIScopes[|baseURIScopes| - 1].input == f.input
      ensures f.version.Some? <==> versionScopes != [] && versionScopes[|versionScopes| - 1].input == f.input
      ensures f.entity.Some? <==> externalPEScopes != [] && externalPEScopes[|externalPEScopes| - 1].input == f.input
      ensures f.entity.Some? ==> f.entity.value in activeExternalPECount
      ensures Counted(if f.entity.None? then activeExternalPECount else Released(activeExternalPECount, f.entity.value), fs)
    {
      f, fs := frames[|frames| - 1], frames[..|frames| - 1];
      TopScopes(frames);
      Shrunk();
      CountedPopped(activeExternalPECount, frames);
    }

    method RestoreBase(input: Input, ghost f: Frame, ghost rest: seq<Scope<string>>)
      requires baseURIScopes == rest + if f.base.Some? then [Scope(input, f.base.value)] else []
      requires f.base.Some? <==> baseURIScopes != [] && baseURIScopes[|baseURIScopes| - 1].input == input
      modifies this`baseURI, this`baseURIScopes
      ensures baseURIScopes == rest && baseURI == if f.base.Some? then f.base.value else old(baseURI)
    {
      var n := |baseURIScopes|;
      if n > 0 && baseURIScopes[n - 1].input == input {
        baseURI := baseURIScopes[n - 1].saved;
        baseURIScopes := baseURIScopes[..n - 1];
      }
    }

    method RestoreVersion(input: Input, ghost f: Frame, ghost rest: seq<Scope<string>>)
      requires versionScopes == rest + if f.version.Some? then [Scope(input, f.version.value)] else []
      requires f.version.Some? <==> versionScopes != [] && versionScopes[|versionScopes| - 1].input == input
      modifies this`version, this`versionScopes
      ensures versionScopes == rest && version == if f.version.Some? then f.version.value else old(version)
    {
      var n := |versionScopes|;
      if n > 0 && versionScopes[n - 1].input == input {
        version := versionScopes[n - 1].saved;
        versionScopes := versionScopes[..n - 1];
      }
    }

    method RestoreEntity(input: Input, ghost f: Frame, ghost rest: seq<Scope<Entity>>)
      requires externalPEScopes == rest + if f.entity.Some? then [Scope(input, f.entity.value)] else []
      requires f.entity.Some? <==> externalPEScopes != [] && externalPEScopes[|externalPEScopes| - 1].input == input
      requires f.entity.Some? ==> f.entity.value in activeExternalPECount
      modifies this`externalPEScopes, this`activeExternalPECount
      ensures externalPEScopes == rest
      ensures activeExternalPECount ==
        if f.entity.None? then old(activeExternalPECount) else Released(old(activeExternalPECount), f.entity.value)
    {
      var n := |externalPEScopes|;
      if n > 0 && externalPEScopes[n - 1].input == input {
        var e := externalPEScopes[n - 1].saved;
        externalPEScopes := externalPEScopes[..n - 1];
        activeExternalPECount := activeExternalPECount[e := activeExternalPECount[e] - 1];
        if activeExternalPECount[e] <= 0 {
          activeExternalPECount := activeExternalPECount - {e};
        }
      }
    }

    /** `externalPEActive` */
    method ExternalPEActive(e: Entity) returns (active: bool)
      requires Valid()
      ensures active <==> exists i :: 0 <= i < |frames| && frames[i].entity == Some(e)
    {
      UsesPositive(frames, e);
      active := e in activeExternalPECount && activeExternalPECount[e] > 0;
    }

    /** The guard of `parsePEReference`: an entity whose text is still being read is not read again. */
    method ReferExternalPE(input: Input, base: string, ver: string, e: Entity) returns (ok: bool)
      requires Valid() && input !in inputTab && NoRecursion(frames)
      modifies this
      ensures Valid() && NoRecursion(frames)
      ensures ok <==> forall i :: 0 <= i < |old(frames)| ==> old(frames)[i].entity != Some(e)
      ensures Now() == if ok then Pushed(old(Now()), input, base, ver, Some(e)) else old(Now())
      ensures ok ==>
        && baseURI == (if base != "" then base else old(baseURI)) && version == (if ver != "" then ver else old(version))
        && inputTab == old(inputTab) + [input]
    {
      var active := ExternalPEActive(e);
      ok := !active;
      if ok {
        PushExternalPEInput(input, base, ver, e);
      }
    }

    method Perform(call: Call)
      requires Valid() && NoRecursion(frames) && (!call.Drain? ==> call.input !in inputTab)
      modifies this
      ensures Valid() && NoRecursion(frames)
      ensures Now() == Called(old(Now()), call)
      ensures forall i :: i in inputTab ==> i in old(inputTab) || (!call.Drain? && i == call.input)
    {
      match call
      case Open(input, base, ver) =>
        OneStep(Now(), Push(input, base, ver, None));
        PushInput(input, base, ver);
      case Refer(input, base, ver, e) =>
        OneStep(Now(), Push(input, base, ver, Some(e)));
        NoSteps(Now());
        var _ := ReferExternalPE(input, base, ver, e);
      case Drain =>
        OneStep(Now(), Pop);
        var _ := PopInput();
    }

    /** Any run of pushes, references and pops, whether or not the references are let through. */
    method Run(calls: seq<Call>)
      requires Valid() && NoRecursion(frames) && Fresh(inputTab, calls)
      modifies this
      ensures Valid() && NoRecursion(frames)
      ensures Now() == AfterCalls(old(Now()), calls)
      ensures Balanced(old(Now()), calls) ==> Now() == old(Now())
    {
      hide Called, NoRecursion, Balanced;
      if Balanced(Now(), calls) {
        BalancedCallsRestore(Now(), calls);
      }
      for k := 0 to |calls|
        invariant Valid() && NoRecursion(frames) && Fresh(inputTab, calls[k..])
        invariant AfterCalls(Now(), calls[k..]) == AfterCalls(old(Now()), calls)
      {
        assert calls[k..][0] == calls[k] && calls[k..][1..] == calls[k + 1..];
        ghost var tab := inputTab;
        Perform(calls[k]);
        FreshStill(tab, inputTab, calls[k..]);
      }
    }
  }

  /** One use of the input stack by the parser. */
  datatype Call =
    | Open(input: Input, base: string, version: string)
    | Refer(input: Input, base: string, version: string, entity: Entity)
    | Drain

  /** Inputs are made when they are pushed: none is there already, and none is pushed twice. */
  predicate Fresh(tab: seq<Input>, calls: seq<Call>) {
    && (forall k :: 0 <= k < |calls| && !calls[k].Drain? ==> calls[k].input !in tab)
    && (forall j, k :: 0 <= j < k < |calls| && !calls[j].Drain? && !calls[k].Drain? ==> calls[j].input != calls[k].input)
  }

  lemma FreshStill(tab: seq<Input>, tab': seq<Input>, calls: seq<Call>)
    requires calls != [] && Fresh(tab, calls)
    requires forall i :: i in tab' ==> i in tab || (!calls[0].Drain? && i == calls[0].input)
    ensures Fresh(tab', calls[1..])
  {
  }

  /** The entity is being read. */
  predicate Active(fs: seq<Frame>, e: Entity) {
    exists i :: 0 <= i < |fs| && fs[i].entity == Some(e)
  }

  /** The pushes and pops a call comes to: none if it refers to an entity that is being read. */
  function StepsOf(s: State, call: Call): seq<Step> {
    match call
    case Open(input, base, ver) => [Push(input, base, ver, None)]
    case Refer(input, base, ver, e) => if Active(s.frames, e) then [] else [Push(input, base, ver, Some(e))]
    case Drain => [Pop]
  }

  function Called(s: State, call: Call): State {
    Run(s, StepsOf(s, call))
  }

  function AfterCalls(s: State, calls: seq<Call>): State
    decreases calls
  {
    if calls == [] then s else AfterCalls(Called(s, calls[0]), calls[1..])
  }

  function StepsAlong(s: State, calls: seq<Call>): seq<Step>
    decreases calls
  {
    if calls == [] then [] else StepsOf(s, calls[0]) + StepsAlong(Called(s, calls[0]), calls[1..])
  }

  lemma {:induction false} RunOn(s: State, a: seq<Step>, b: seq<Step>)
    ensures Run(s, a + b) == Run(Run(s, a), b)
    decreases a
  {
    hide Taken;
    if a == [] {
      assert a + b == b;
    } else {
      RunOn(Taken(s, a[0]), a[1..], b);
      assert (a + b)[1..] == a[1..] + b;
    }
  }

  lemma {:induction false} CallsAreSteps(s: State, calls: seq<Call>)
    ensures AfterCalls(s, calls) == Run(s, StepsAlong(s, calls))
    decreases calls
  {
    hide StepsOf, Run;
    if calls == [] {
      NoSteps(s);
    } else {
      var t := Called(s, calls[0]);
      CallsAreSteps(t, calls[1..]);
      RunOn(s, StepsOf(s, calls[0]), StepsAlong(t, calls[1..]));
    }
  }

  lemma NoSteps(s: State)
    ensures Run(s, []) == s
  {
  }

  /** The calls never remove an input that was there before, and end with as many as there were. */
  predicate Balanced(s: State, calls: seq<Call>) {
    StaysAbove(s, StepsAlong(s, calls), |s.frames|) && |AfterCalls(s, calls).frames| == |s.frames|
  }

  /** Balanced calls restore base URI, version and inputs, whether or not the references in them are let through. */
  lemma BalancedCallsRestore(s: State, calls: seq<Call>)
    requires Balanced(s, calls)
    ensures AfterCalls(s, calls) == s
  {
    CallsAreSteps(s, calls);
    BalancedRestores(s, StepsAlong(s, calls));
  }

  lemma OneStep(s: State, step: Step)
    ensures Run(s, [step]) == Taken(s, step)
  {
    assert [step][1..] == [];
  }

  /** From the start, whatever is pushed, referred to and drained: no external parameter entity is read within itself. */
  method ParseInputs(base: string, version: string, calls: seq<Call>) returns (inputs: InputStack)
    requires Fresh([], calls)
    ensures fresh(inputs) && inputs.Valid() && NoRecursion(inputs.frames)
    ensures inputs.Now() == AfterCalls(State([], base, version), calls)
  {
    inputs := new InputStack(base, version);
    inputs.Run(calls);
  }
}
