/** Keeping the model list of a channel in step with its upstream: detect what
    appeared and disappeared, stage it, and apply, ignore or adopt it. */
module UpstreamModels {
  import opened NameLists
  import opened Text

  // ------------------------------------------------------------- lists of names

  function Trimmed(models: seq<string>): seq<string> {
    if models == [] then []
    else
      var name := TrimSpace(models[|models| - 1]);
      Trimmed(models[..|models| - 1]) + (if name == "" then [] else [name])
  }

  function Normalize(models: seq<string>): seq<string> { Uniq(Trimmed(models)) }

  /** What Normalize produces and leaves alone. */
  ghost predicate Normal(s: seq<string>) {
    Distinct(s) && forall i | 0 <= i < |s| :: s[i] != "" && Tight(s[i])
  }

  lemma {:induction false} TrimmedIs(models: seq<string>)
    ensures forall i | 0 <= i < |Trimmed(models)| :: Trimmed(models)[i] != "" && Tight(Trimmed(models)[i])
  {
    if models != [] {
      TrimmedIs(models[..|models| - 1]);
      TrimSpaceIs(models[|models| - 1]);
    }
  }

  lemma {:induction false} TrimmedOfTight(models: seq<string>)
    requires forall i | 0 <= i < |models| :: models[i] != "" && Tight(models[i])
    ensures Trimmed(models) == models
  {
    if models != [] {
      TrimmedOfTight(models[..|models| - 1]);
      TrimOfTight(models[|models| - 1]);
    }
  }

  lemma SubsetNormal(s: seq<string>, t: seq<string>)
    requires Normal(t) && Distinct(s) && forall x :: x in s ==> x in t
    ensures Normal(s)
  {
    forall i | 0 <= i < |s|
      ensures s[i] != "" && Tight(s[i])
    {
      assert s[i] in t;
    }
  }

  lemma NormalizeIs(models: seq<string>)
    ensures Normal(Normalize(models))
  {
    hide Tight;
    var t := Trimmed(models);
    TrimmedIs(models);
    UniqIs(t);
    forall i | 0 <= i < |Uniq(t)|
      ensures Uniq(t)[i] != "" && Tight(Uniq(t)[i])
    {
      assert Uniq(t)[i] in t;
    }
  }

  lemma NormalizeOfNormal(s: seq<string>)
    requires Normal(s)
    ensures Normalize(s) == s
  {
    hide Tight;
    TrimmedOfTight(s);
    UniqOfDistinct(s);
  }

  /** The merged list: the base, then what the other list adds to it. */
  method MergeModelNames(base: seq<string>, appended: seq<string>) returns (merged: seq<string>)
    ensures merged == Merge(Normalize(base), Normalize(appended))
    ensures Normal(merged) && Normalize(base) <= merged && InOrderOf(merged[|Normalize(base)|..], Normalize(appended))
    ensures forall x :: x in merged <==> x in Normalize(base) || x in Normalize(appended)
  {
    hide Normalize;
    merged := Normalize(base);
    var more := Normalize(appended);
    ghost var start := merged;
    NormalizeIs(appended);
    var seen := set m | m in merged;
    for i := 0 to |more|
      invariant merged == start + Minus(more[..i], start)
      invariant seen == set m | m in merged
    {
      assert more[..i + 1][..i] == more[..i];
      NotYetAppended(more, i, start);
      if more[i] !in seen {
        seen := seen + {more[i]};
        merged := merged + [more[i]];
      }
    }
    assert more[..|more|] == more;
    NormalizeIs(base);
    MergedInOrder(start, more);
  }

  lemma MergedInOrder(s: seq<string>, t: seq<string>)
    requires Normal(s) && Normal(t)
    ensures var m := Merge(s, t);
      && Normal(m) && s <= m && InOrderOf(m[|s|..], t) && forall x :: x in m <==> x in s || x in t
  {
    hide Normal, Minus, InOrderOf;
    MergeNormal(s, t);
    NormalIsDistinct(t);
    MinusInOrder(t, s);
    assert Merge(s, t)[|s|..] == Minus(t, s);
  }

  lemma NotYetAppended(more: seq<string>, i: nat, start: seq<string>)
    requires Distinct(more) && i < |more|
    ensures more[i] in start + Minus(more[..i], start) <==> more[i] in start
  {
    MinusIs(more[..i], start);
    assert more[i] !in more[..i];
  }

  function Merge(s: seq<string>, t: seq<string>): seq<string> { s + Minus(t, s) }

  function SubtractModelNames(base: seq<string>, removed: seq<string>): seq<string> {
    Minus(Normalize(base), Normalize(removed))
  }

  function IntersectModelNames(base: seq<string>, allowed: seq<string>): seq<string> {
    Meet(Normalize(base), Normalize(allowed))
  }

  function ApplySelectedModelChanges(origin: seq<string>, add: seq<string>, remove: seq<string>): seq<string> {
    var adds := Normalize(add);
    var removes := SubtractModelNames(Normalize(remove), adds);
    SubtractModelNames(Merge(Normalize(origin), Normalize(adds)), removes)
  }

  // ------------------------------------------------------------- detection

  type Regex = (string, string) -> bool

  predicate IsRegex(rule: string) { |rule| >= 6 && rule[..6] == "regex:" }

  /** Whether an entry of the ignore list covers a model; how a regular
      expression matches is a parameter. */
  predicate RuleMatches(rule: string, name: string, rx: Regex) {
    if IsRegex(rule) then rx(TrimSpace(rule[6..]), name) else rule == name
  }

  predicate Ignored(rules: seq<string>, name: string, rx: Regex) {
    exists rule | rule in rules :: RuleMatches(rule, name, rx)
  }

  function NewNames(upstream: seq<string>, covered: set<string>, rules: seq<string>, rx: Regex): seq<string> {
    if upstream == [] then []
    else
      var name := upstream[|upstream| - 1];
      NewNames(upstream[..|upstream| - 1], covered, rules, rx)
      + (if name in covered || Ignored(rules, name, rx) then [] else [name])
  }

  function GoneNames(local: seq<string>, sources: set<string>, upstream: seq<string>): seq<string> {
    if local == [] then []
    else
      var name := local[|local| - 1];
      GoneNames(local[..|local| - 1], sources, upstream)
      + (if name in sources || name in upstream then [] else [name])
  }

  type Mapping = map<string, string>

  function Covered(local: seq<string>, mapping: Mapping): set<string> {
    (set m | m in local) + mapping.Values
  }

  function PendingAdd(local: seq<string>, upstream: seq<string>, ignored: seq<string>, mapping: Mapping, rx: Regex): seq<string> {
    Normalize(NewNames(Normalize(upstream), Covered(Normalize(local), mapping), Normalize(ignored), rx))
  }

  function PendingRemove(local: seq<string>, upstream: seq<string>, mapping: Mapping): seq<string> {
    Normalize(GoneNames(Normalize(local), mapping.Keys, Normalize(upstream)))
  }

  lemma {:induction false} NewNamesIs(upstream: seq<string>, covered: set<string>, rules: seq<string>, rx: Regex)
    ensures forall x :: x in NewNames(upstream, covered, rules, rx)
                   <==> x in upstream && x !in covered && !Ignored(rules, x, rx)
    ensures Distinct(upstream) ==> Distinct(NewNames(upstream, covered, rules, rx))
  {
    hide Ignored;
    if upstream != [] {
      NewNamesIs(upstream[..|upstream| - 1], covered, rules, rx);
    }
  }

  lemma {:induction false} GoneNamesIs(local: seq<string>, sources: set<string>, upstream: seq<string>)
    ensures forall x :: x in GoneNames(local, sources, upstream) <==> x in local && x !in sources && x !in upstream
    ensures Distinct(local) ==> Distinct(GoneNames(local, sources, upstream))
  {
    if local != [] {
      GoneNamesIs(local[..|local| - 1], sources, upstream);
    }
  }

  lemma PendingAddOf(local: seq<string>, upstream: seq<string>, ignored: seq<string>, mapping: Mapping, rx: Regex)
    ensures var add := PendingAdd(local, upstream, ignored, mapping, rx);
      Normal(add) && forall x :: x in add <==>
        x in Normalize(upstream) && x !in Normalize(local) && x !in mapping.Values && !Ignored(Normalize(ignored), x, rx)
  {
    hide Normalize, Ignored, Normal, NewNames;
    var u, covered := Normalize(upstream), Covered(Normalize(local), mapping);
    NormalizeIs(upstream);
    NewNamesIs(u, covered, Normalize(ignored), rx);
    NormalIsDistinct(u);
    SubsetNormal(NewNames(u, covered, Normalize(ignored), rx), u);
    NormalizeOfNormal(NewNames(u, covered, Normalize(ignored), rx));
  }

  // ------------------------------------------------------------- detection, spelt out

  /** The normalized names are the trimmed ones that are not empty, each once, in
      the order in which they first occur. */
  lemma NormalizedNames(models: seq<string>)
    ensures Normal(Normalize(models)) && InOrderOf(Normalize(models), TrimmedEach(models))
    ensures forall x :: x in Normalize(models) <==> x != "" && exists i | 0 <= i < |models| :: TrimSpace(models[i]) == x
  {
    hide Tight, Normal, Uniq, TrimSpace;
    NormalizeIs(models);
    UniqIs(Trimmed(models));
    TrimmedMembers(models);
    NormalizedInOrder(models);
  }

  lemma {:induction false} TrimmedMembers(models: seq<string>)
    ensures forall x :: x in Trimmed(models) <==> x != "" && exists i | 0 <= i < |models| :: TrimSpace(models[i]) == x
  {
    hide TrimSpace;
    if models != [] {
      var before, n := models[..|models| - 1], |models| - 1;
      TrimmedMembers(before);
      forall x
        ensures x in Trimmed(models) <==> x != "" && exists i | 0 <= i < |models| :: TrimSpace(models[i]) == x
      {
        if x in Trimmed(before) {
          var i :| 0 <= i < |before| && TrimSpace(before[i]) == x;
          assert TrimSpace(models[i]) == x;
        }
        if x != "" && exists i | 0 <= i < |models| :: TrimSpace(models[i]) == x {
          var i :| 0 <= i < |models| && TrimSpace(models[i]) == x;
          assert i == n || before[i] == models[i];
        }
      }
    }
  }

  lemma {:induction false} NormalizedInOrder(models: seq<string>)
    ensures InOrderOf(Normalize(models), TrimmedEach(models))
  {
    hide TrimSpace, InOrderOf;
    if models == [] {
      NothingInOrder(TrimmedEach(models));
    } else {
      var before, name := models[..|models| - 1], TrimSpace(models[|models| - 1]);
      NormalizedInOrder(before);
      OneMore(Normalize(before), TrimmedEach(before), name);
      assert TrimmedEach(models) == TrimmedEach(before) + [name];
      NormalizeOneMore(models);
    }
  }

  lemma NormalizeOneMore(models: seq<string>)
    requires models != []
    ensures var before, name := models[..|models| - 1], TrimSpace(models[|models| - 1]);
      Normalize(models) == Normalize(before)
      || (name !in TrimmedEach(before) && Normalize(models) == Normalize(before) + [name])
  {
    hide TrimSpace;
    var before, name := models[..|models| - 1], TrimSpace(models[|models| - 1]);
    var t := Trimmed(before);
    UniqIs(t);
    TrimmedMembers(before);
    if name == "" {
      assert t + [] == t;
    } else {
      assert (t + [name])[..|t|] == t;
      assert name in TrimmedEach(before) ==> exists i | 0 <= i < |before| :: TrimSpace(before[i]) == name;
    }
  }

  /** What one entry of the ignore list hides: itself, or with the prefix what its
      expression matches; such an entry does not hide itself. */
  lemma RuleIs(rule: string, x: string, rx: Regex)
    ensures RuleMatches(rule, x, rx) <==>
              (rule == x && !("regex:" <= x)) || exists body :: rule == "regex:" + body && rx(TrimSpace(body), x)
  {
    hide TrimSpace;
    if IsRegex(rule) {
      assert rule == "regex:" + rule[6..];
    }
    forall body | rule == "regex:" + body
      ensures rule[6..] == body && IsRegex(rule)
    {
    }
  }

  lemma HiddenWhen(rules: seq<string>, x: string, rx: Regex)
    ensures Ignored(rules, x, rx) <==>
              (x in rules && !("regex:" <= x)) || exists body :: "regex:" + body in rules && rx(TrimSpace(body), x)
  {
    hide RuleMatches, TrimSpace;
    RuleIs(x, x, rx);
    if Ignored(rules, x, rx) {
      var rule :| rule in rules && RuleMatches(rule, x, rx);
      RuleIs(rule, x, rx);
    }
    forall body | "regex:" + body in rules && rx(TrimSpace(body), x)
      ensures RuleMatches("regex:" + body, x, rx)
    {
      RuleIs("regex:" + body, x, rx);
    }
  }

  /** What a check stages for addition: the upstream names, in their order, that are neither
      local models nor redirect targets, that are not themselves an entry of the ignore list
      without the prefix, and that no expression of the ignore list matches. */
  lemma PendingAddIs(local: seq<string>, upstream: seq<string>, ignored: seq<string>, mapping: Mapping, rx: Regex)
    ensures var add, rules := PendingAdd(local, upstream, ignored, mapping, rx), Normalize(ignored);
      && Normal(add) && InOrderOf(add, Normalize(upstream))
      && forall x :: x in add <==>
           && x in Normalize(upstream) && x !in Normalize(local) && (forall source | source in mapping :: mapping[source] != x)
           && !(x in rules && !("regex:" <= x))
           && !(exists body :: "regex:" + body in rules && rx(TrimSpace(body), x))
  {
    hide Normalize, Ignored, Normal, NewNames, PendingAdd, TrimSpace, InOrderOf;
    PendingAddOf(local, upstream, ignored, mapping, rx);
    PendingAddInOrder(local, upstream, ignored, mapping, rx);
    forall x
      ensures Ignored(Normalize(ignored), x, rx) <==>
              (x in Normalize(ignored) && !("regex:" <= x))
              || exists body :: "regex:" + body in Normalize(ignored) && rx(TrimSpace(body), x)
    {
      HiddenWhen(Normalize(ignored), x, rx);
    }
  }

  /** Without expressions the ignore list hides exactly its own members. */
  lemma PlainIgnoreList(local: seq<string>, upstream: seq<string>, ignored: seq<string>, mapping: Mapping, rx: Regex, x: string)
    requires x in Normalize(upstream) && x !in Normalize(local) && forall source | source in mapping :: mapping[source] != x
    requires forall rule | rule in Normalize(ignored) :: !("regex:" <= rule)
    ensures x in PendingAdd(local, upstream, ignored, mapping, rx) <==> x !in Normalize(ignored)
  {
    hide Normalize, Normal, PendingAdd, TrimSpace, InOrderOf;
    PendingAddIs(local, upstream, ignored, mapping, rx);
    forall body: string
      ensures "regex:" <= "regex:" + body
    {
    }
  }

  lemma PendingAddInOrder(local: seq<string>, upstream: seq<string>, ignored: seq<string>, mapping: Mapping, rx: Regex)
    ensures InOrderOf(PendingAdd(local, upstream, ignored, mapping, rx), Normalize(upstream))
  {
    hide Normalize, Ignored, Normal, NewNames, InOrderOf;
    var u, covered, rules := Normalize(upstream), Covered(Normalize(local), mapping), Normalize(ignored);
    NormalizeIs(upstream);
    NormalIsDistinct(u);
    NewNamesIs(u, covered, rules, rx);
    NewNamesInOrder(u, covered, rules, rx);
    SubsetNormal(NewNames(u, covered, rules, rx), u);
    NormalizeOfNormal(NewNames(u, covered, rules, rx));
  }

  lemma {:induction false} NewNamesInOrder(upstream: seq<string>, covered: set<string>, rules: seq<string>, rx: Regex)
    requires Distinct(upstream)
    ensures InOrderOf(NewNames(upstream, covered, rules, rx), upstream)
  {
    hide Ignored, InOrderOf;
    if upstream == [] {
      NothingInOrder(upstream);
    } else {
      var before, name := upstream[..|upstream| - 1], upstream[|upstream| - 1];
      NewNamesInOrder(before, covered, rules, rx);
      var names := NewNames(before, covered, rules, rx);
      OneMore(names, before, name);
      assert upstream == before + [name] && names + [] == names;
    }
  }

  lemma {:induction false} GoneNamesInOrder(local: seq<string>, sources: set<string>, upstream: seq<string>)
    requires Distinct(local)
    ensures InOrderOf(GoneNames(local, sources, upstream), local)
  {
    hide InOrderOf;
    if local == [] {
      NothingInOrder(local);
    } else {
      var before, name := local[..|local| - 1], local[|local| - 1];
      GoneNamesInOrder(before, sources, upstream);
      var names := GoneNames(before, sources, upstream);
      OneMore(names, before, name);
      assert local == before + [name] && names + [] == names;
    }
  }

  lemma NormalIsDistinct(s: seq<string>)
    requires Normal(s)
    ensures Distinct(s)
  {
  }

  lemma PendingRemoveIs(local: seq<string>, upstream: seq<string>, mapping: Mapping)
    ensures var gone := PendingRemove(local, upstream, mapping);
      && Normal(gone) && InOrderOf(gone, Normalize(local))
      && forall x :: x in gone <==> x in Normalize(local) && x !in mapping && x !in Normalize(upstream)
  {
    hide Normalize, Normal, GoneNames, InOrderOf;
    var l := Normalize(local);
    NormalizeIs(local);
    GoneNamesIs(l, mapping.Keys, Normalize(upstream));
    NormalIsDistinct(l);
    GoneNamesInOrder(l, mapping.Keys, Normalize(upstream));
    SubsetNormal(GoneNames(l, mapping.Keys, Normalize(upstream)), l);
    NormalizeOfNormal(GoneNames(l, mapping.Keys, Normalize(upstream)));
  }

  // ------------------------------------------------------------- storing names

  function GetModels(models: string): seq<string> {
    if models == "" then [] else Split(TrimChar(models, ','), ',')
  }

  ghost predicate NoCommas(names: seq<string>) {
    forall i | 0 <= i < |names| :: ',' !in names[i]
  }

  /** What a list of names reads as once it was stored as one string. */
  function Reread(names: seq<string>): seq<string> { GetModels(Join(names, ',')) }

  // ------------------------------------------------------------- the channel

  /** The persistent part of a channel that the updates read and write. */
  datatype Channel = Channel(models: seq<string>, staged: seq<string>, removals: seq<string>,
                             ignored: seq<string>, autoSync: bool, lastCheck: int)

  datatype Reply = Models(names: seq<string>) | FetchError

  /** What one check decides. `due` says that it was forced or that the interval has passed. */
  function CheckOutcome(c: Channel, mapping: Mapping, rx: Regex, reply: Reply, due: bool, allowAuto: bool, now: int): Channel {
    if !due then c
    else match reply
      case FetchError => c.(lastCheck := now)
      case Models(upstream) =>
        var add := PendingAdd(c.models, upstream, c.ignored, mapping, rx);
        var gone := PendingRemove(c.models, upstream, mapping);
        if allowAuto && c.autoSync && |add| > 0 then
          var origin := Normalize(c.models);
          var merged := Merge(Normalize(origin), Normalize(add));
          c.(models := if |merged| > |origin| then merged else c.models,
             staged := [], removals := gone, lastCheck := now)
        else c.(staged := add, removals := gone, lastCheck := now)
  }

  datatype Request = Request(add: seq<string>, ignore: seq<string>, remove: seq<string>)

  function Adds(c: Channel, q: Request): seq<string> {
    IntersectModelNames(q.add, Normalize(c.staged))
  }
  function Ignores(c: Channel, q: Request): seq<string> {
    IntersectModelNames(q.ignore, Normalize(c.staged))
  }
  function Removes(c: Channel, q: Request): seq<string> {
    SubtractModelNames(IntersectModelNames(q.remove, Normalize(c.removals)), Adds(c, q))
  }
  function NextModels(c: Channel, q: Request): seq<string> {
    ApplySelectedModelChanges(Normalize(c.models), Adds(c, q), Removes(c, q))
  }
  predicate ModelsChanged(c: Channel, q: Request) {
    Normalize(c.models) != NextModels(c, q)
  }

  function ApplyOutcome(c: Channel, q: Request, now: int): Channel {
    var merged := Merge(Normalize(c.ignored), Normalize(Ignores(c, q)));
    Channel(
      if ModelsChanged(c, q) then NextModels(c, q) else c.models,
      SubtractModelNames(Normalize(c.staged), Adds(c, q) + Ignores(c, q)),
      SubtractModelNames(Normalize(c.removals), Removes(c, q)),
      if |Adds(c, q)| > 0 then SubtractModelNames(merged, Adds(c, q)) else merged,
      c.autoSync, now)
  }

  /** The channel as the next operation reads it: a new model list was stored as one string. */
  function Checked(c: Channel, mapping: Mapping, rx: Regex, reply: Reply, due: bool, allowAuto: bool, now: int): Channel {
    var d := CheckOutcome(c, mapping, rx, reply, due, allowAuto, now);
    if d.models != c.models then d.(models := Reread(d.models)) else d
  }

  function Applied(c: Channel, q: Request, now: int): Channel {
    var d := ApplyOutcome(c, q, now);
    if ModelsChanged(c, q) then d.(models := Reread(d.models)) else d
  }

  // ------------------------------------------------------------- what every run keeps

  ghost predicate Apart(s: seq<string>, t: seq<string>) {
    forall x | x in s :: x !in t
  }

  ghost predicate Inv(c: Channel) {
    Normal(c.staged) && Normal(c.removals) && Apart(c.staged, c.removals)
  }

  lemma InvForgetsModels(c: Channel)
    requires Inv(c)
    ensures Inv(c.(models := Reread(c.models)))
  {
    hide Reread, Normal, Apart;
  }

  lemma CheckKeeps(c: Channel, mapping: Mapping, rx: Regex, reply: Reply, due: bool, allowAuto: bool, now: int)
    requires Inv(c)
    ensures Inv(Checked(c, mapping, rx, reply, due, allowAuto, now))
  {
    hide PendingAdd, PendingRemove, Normalize, Ignored, Reread;
    if reply.Models? {
      PendingAddOf(c.models, reply.names, c.ignored, mapping, rx);
      PendingRemoveIs(c.models, reply.names, mapping);
    }
  }

  lemma SubtractIs(s: seq<string>, r: seq<string>)
    requires Normal(s) && Normal(r)
    ensures SubtractModelNames(s, r) == Minus(s, r) && Normal(Minus(s, r)) && InOrderOf(Minus(s, r), s)
    ensures forall x :: x in Minus(s, r) <==> x in s && x !in r
  {
    hide Normalize, Normal, Minus, InOrderOf;
    NormalizeOfNormal(s);
    NormalizeOfNormal(r);
    MinusIs(s, r);
    NormalIsDistinct(s);
    MinusInOrder(s, r);
    SubsetNormal(Minus(s, r), s);
  }

  lemma IntersectIs(input: seq<string>, r: seq<string>)
    requires Normal(r)
    ensures var m := IntersectModelNames(input, r);
      Normal(m) && InOrderOf(m, Normalize(input)) && forall x :: x in m <==> x in Normalize(input) && x in r
  {
    hide Normalize, Normal, Meet, InOrderOf;
    NormalizeIs(input);
    NormalizeOfNormal(r);
    MeetIs(Normalize(input), r);
    NormalIsDistinct(Normalize(input));
    MeetInOrder(Normalize(input), r);
    SubsetNormal(Meet(Normalize(input), r), Normalize(input));
  }

  /** The three selections of an apply request. */
  lemma Selections(c: Channel, q: Request)
    requires Inv(c)
    ensures Normal(Adds(c, q)) && Normal(Ignores(c, q)) && Normal(Removes(c, q)) && Apart(Removes(c, q), Adds(c, q))
    ensures forall x :: x in Adds(c, q) <==> x in Normalize(q.add) && x in c.staged
    ensures forall x :: x in Ignores(c, q) <==> x in Normalize(q.ignore) && x in c.staged
    ensures forall x :: x in Removes(c, q) <==> x in Normalize(q.remove) && x in c.removals
  {
    hide Normalize, Normal, IntersectModelNames, SubtractModelNames;
    NormalizeOfNormal(c.staged);
    NormalizeOfNormal(c.removals);
    IntersectIs(q.add, c.staged);
    IntersectIs(q.ignore, c.staged);
    IntersectIs(q.remove, c.removals);
    SubtractIs(IntersectModelNames(q.remove, c.removals), Adds(c, q));
  }

  lemma MergeNormal(s: seq<string>, t: seq<string>)
    requires Normal(s) && Normal(t)
    ensures Normal(Merge(s, t)) && forall x :: x in Merge(s, t) <==> x in s || x in t
  {
    hide Tight, Minus;
    MinusIs(t, s);
    var m := Minus(t, s);
    assert forall i | 0 <= i < |m| :: m[i] in t;
  }

  /** The new model list: the surviving models in their old order, then the
      selected ones that were not there yet. */
  lemma SelectedInOrder(origin: seq<string>, add: seq<string>, remove: seq<string>)
    requires Normal(origin) && Normal(add) && Normal(remove) && Apart(remove, add)
    ensures ApplySelectedModelChanges(origin, add, remove) == Minus(origin, remove) + Minus(add, origin)
  {
    hide Normalize, Normal, SubtractModelNames, Minus;
    NormalizeOfNormal(origin);
    NormalizeOfNormal(add);
    NormalizeOfNormal(remove);
    SubtractIs(remove, add);
    MinusNothing(remove, add);
    MergeNormal(origin, add);
    SubtractIs(Merge(origin, add), remove);
    MinusSplit(origin, Minus(add, origin), remove);
    MinusIs(add, origin);
    MinusNothing(Minus(add, origin), remove);
  }

  lemma AppliedIs(c: Channel, q: Request, now: int)
    requires Inv(c)
    ensures var d, o := ApplyOutcome(c, q, now), Normalize(c.models);
      && NextModels(c, q) == Minus(o, Removes(c, q)) + Minus(Adds(c, q), o)
      && d.staged == Minus(c.staged, Adds(c, q) + Ignores(c, q))
      && d.removals == Minus(c.removals, Removes(c, q))
  {
    hide Normalize, Normal, SubtractModelNames, Minus, Adds, Ignores, Removes, ApplySelectedModelChanges, Merge, Uniq, Trimmed;
    Selections(c, q);
    NormalizeIs(c.models);
    NormalizeOfNormal(Normalize(c.models));
    NormalizeOfNormal(c.staged);
    NormalizeOfNormal(c.removals);
    SelectedInOrder(Normalize(c.models), Adds(c, q), Removes(c, q));
    SubtractIs(c.removals, Removes(c, q));
    SubtractJoined(c.staged, Adds(c, q), Ignores(c, q));
  }

  lemma SubtractJoined(s: seq<string>, a: seq<string>, b: seq<string>)
    requires Normal(s) && Normal(a) && Normal(b)
    ensures SubtractModelNames(s, a + b) == Minus(s, a + b)
  {
    hide Normal, Minus, Uniq, Tight;
    NormalizeOfNormal(s);
    JoinedTrimmed(a, b);
    UniqIs(a + b);
    MinusCongruent(s, Normalize(a + b), a + b);
  }

  lemma JoinedTrimmed(a: seq<string>, b: seq<string>)
    requires Normal(a) && Normal(b)
    ensures Trimmed(a + b) == a + b
  {
    hide Tight;
    TrimmedOfTight(a + b);
  }

  lemma ApplyKeeps(c: Channel, q: Request, now: int)
    requires Inv(c)
    ensures Inv(ApplyOutcome(c, q, now)) && Inv(Applied(c, q, now))
  {
    hide Normal, Minus, ApplyOutcome, Adds, Ignores, Removes, Reread, ModelsChanged;
    AppliedIs(c, q, now);
    MinusIs(c.staged, Adds(c, q) + Ignores(c, q));
    MinusIs(c.removals, Removes(c, q));
    NormalIsDistinct(c.staged);
    NormalIsDistinct(c.removals);
    SubsetNormal(Minus(c.staged, Adds(c, q) + Ignores(c, q)), c.staged);
    SubsetNormal(Minus(c.removals, Removes(c, q)), c.removals);
    InvForgetsModels(ApplyOutcome(c, q, now));
  }

  /** A run interleaves checks and apply requests with edits of the channel. */
  datatype Op =
    | Check(mapping: Mapping, rx: Regex, reply: Reply, due: bool, allowAuto: bool, now: int)
    | Apply(request: Request, now: int)
    | Edit(models: seq<string>, ignored: seq<string>, autoSync: bool)

  ghost function Step(c: Channel, op: Op): Channel {
    match op
    case Check(mapping, rx, reply, due, allowAuto, now) => Checked(c, mapping, rx, reply, due, allowAuto, now)
    case Apply(q, now) => Applied(c, q, now)
    case Edit(models, ignored, autoSync) => c.(models := models, ignored := ignored, autoSync := autoSync)
  }

  ghost function Run(c: Channel, ops: seq<Op>): Channel
    decreases |ops|
  {
    if ops == [] then c else Run(Step(c, ops[0]), ops[1..])
  }

  /** Over every run the staged additions and removals stay free of repetitions
      and never share a name. */
  lemma {:induction false} StagingStaysApart(c: Channel, ops: seq<Op>)
    requires Inv(c)
    ensures Inv(Run(c, ops))
    decreases |ops|
  {
    hide Inv, Checked, Applied;
    if ops != [] {
      match ops[0] {
        case Check(mapping, rx, reply, due, allowAuto, now) => CheckKeeps(c, mapping, rx, reply, due, allowAuto, now);
        case Apply(q, now) => ApplyKeeps(c, q, now);
        case Edit(models, ignored, autoSync) => EditKeeps(c, models, ignored, autoSync);
      }
      StagingStaysApart(Step(c, ops[0]), ops[1..]);
    }
  }

  lemma EditKeeps(c: Channel, models: seq<string>, ignored: seq<string>, autoSync: bool)
    requires Inv(c)
    ensures Inv(c.(models := models, ignored := ignored, autoSync := autoSync))
  {
  }

  // ------------------------------------------------------------- one apply request

  lemma NextModelsIs(c: Channel, q: Request, now: int)
    requires Inv(c)
    ensures Normal(NextModels(c, q)) && Normalize(ApplyOutcome(c, q, now).models) == NextModels(c, q)
    ensures forall x :: x in NextModels(c, q) <==>
              (x in Normalize(c.models) && x !in Removes(c, q)) || x in Adds(c, q)
  {
    hide Normalize, Normal, Minus, Adds, Ignores, Removes, NextModels, Merge, SubtractModelNames;
    var o, a, d := Normalize(c.models), Adds(c, q), Removes(c, q);
    AppliedIs(c, q, now);
    Selections(c, q);
    NormalizeIs(c.models);
    MinusIs(o, d);
    MinusIs(a, o);
    SubtractIs(o, d);
    SubtractIs(a, o);
    AppendNormal(Minus(o, d), Minus(a, o));
    NormalizeOfNormal(NextModels(c, q));
  }

  lemma AppendNormal(s: seq<string>, t: seq<string>)
    requires Normal(s) && Normal(t) && Apart(s, t)
    ensures Normal(s + t)
  {
    hide Tight;
    assert forall i, j | 0 <= i < |s| && 0 <= j < |t| :: s[i] != t[j] by {
      assert forall i | 0 <= i < |s| :: s[i] in s;
    }
  }

  lemma IgnoredAfter(c: Channel, q: Request, now: int)
    requires Inv(c)
    ensures var rules := ApplyOutcome(c, q, now).ignored;
      Normal(rules) && forall x :: x in rules <==>
        (x in Normalize(c.ignored) || x in Ignores(c, q)) && x !in Adds(c, q)
  {
    hide Normalize, Normal, Adds, Ignores, Removes, NextModels, Merge, SubtractModelNames, Minus;
    Selections(c, q);
    NormalizeIs(c.ignored);
    NormalizeOfNormal(Ignores(c, q));
    MergeNormal(Normalize(c.ignored), Ignores(c, q));
    SubtractIs(Merge(Normalize(c.ignored), Ignores(c, q)), Adds(c, q));
  }

  lemma OutcomeSplitsStaged(c: Channel, q: Request, now: int, x: string)
    requires Inv(c) && x in c.staged
    ensures var d := ApplyOutcome(c, q, now);
      && (x in d.staged <==> x !in Adds(c, q) && x !in Ignores(c, q))
      && (x in Adds(c, q) <==> x in Normalize(q.add))
      && (x in Adds(c, q) ==> x in NextModels(c, q) && x !in d.ignored)
      && (x in Ignores(c, q) && x !in Adds(c, q) ==> x in d.ignored)
      && Distinct(d.staged) && forall y | y in d.staged :: y in c.staged
  {
    hide Normalize, Normal, Adds, Ignores, Removes, NextModels, Minus, ApplyOutcome;
    Selections(c, q);
    AppliedIs(c, q, now);
    NextModelsIs(c, q, now);
    IgnoredAfter(c, q, now);
    NormalIsDistinct(c.staged);
    MinusIs(c.staged, Adds(c, q) + Ignores(c, q));
  }

  /** An apply request deals with every staged addition exactly once: it is added,
      or ignored without being added, or stays staged. What is added is ignored no
      longer, and it is a model of the stored channel exactly when its name has no
      comma; the others of the request are ignored. */
  lemma ApplySplitsStaged(c: Channel, q: Request, now: int, x: string)
    requires Inv(c) && NoCommas(c.models) && x in c.staged
    ensures var d := Applied(c, q, now);
      && (x in d.staged <==> x !in Adds(c, q) && x !in Ignores(c, q))
      && (x in Adds(c, q) <==> x in Normalize(q.add))
      && (x in Adds(c, q) ==> x !in d.ignored && (x in Normalize(d.models) <==> ',' !in x))
      && (x in Ignores(c, q) && x !in Adds(c, q) ==> x in d.ignored)
      && Distinct(d.staged) && forall y | y in d.staged :: y in c.staged
  {
    hide Normalize, Normal, Adds, Ignores, Removes, NextModels, ApplyOutcome, Reread, NoCommas;
    OutcomeSplitsStaged(c, q, now, x);
    NextModelsIs(c, q, now);
    if x in Adds(c, q) {
      StoredName(c, q, now, x);
    }
  }

  lemma StoredName(c: Channel, q: Request, now: int, x: string)
    requires Inv(c) && NoCommas(c.models) && x in NextModels(c, q)
    ensures x in Normalize(Applied(c, q, now).models) <==> ',' !in x
  {
    hide Normalize, NextModels, Reread, Normal, NoCommas, Adds, Ignores, Removes;
    NextModelsIs(c, q, now);
    var d := Applied(c, q, now);
    AppliedNoCommas(c, q, now);
    NormalizeNoCommas(d.models);
    CommasOf(Normalize(d.models));
    if ModelsChanged(c, q) && ',' !in x {
      NameSurvives(NextModels(c, q), x);
    }
  }

  /** A name without a comma survives being stored, whatever the other names are. */
  lemma NameSurvives(names: seq<string>, x: string)
    requires Normal(names) && x in names && ',' !in x
    ensures x in Normalize(Reread(names))
  {
    hide Normalize;
    NormalMember(names, x);
    FoundInJoin(names, x, ',');
    var joined := Join(names, ',');
    assert joined != "" by { SplitNothing(','); }
    TrimKeepsParts(joined, x, ',');
    NormalizeHas(Reread(names), x);
  }

  lemma NormalMember(names: seq<string>, x: string)
    requires Normal(names) && x in names
    ensures x != "" && Tight(x)
  {
    hide Tight;
  }

  lemma NormalizeHas(names: seq<string>, x: string)
    requires x in names && x != "" && Tight(x)
    ensures x in Normalize(names)
  {
    TrimmedHas(names, x);
    UniqIs(Trimmed(names));
  }

  lemma {:induction false} TrimmedHas(names: seq<string>, x: string)
    requires x in names && x != "" && Tight(x)
    ensures x in Trimmed(names)
  {
    TrimOfTight(x);
    if names[|names| - 1] != x {
      TrimmedHas(names[..|names| - 1], x);
    }
  }

  /** What is read back has no commas. */
  lemma AppliedNoCommas(c: Channel, q: Request, now: int)
    requires NoCommas(c.models)
    ensures NoCommas(Applied(c, q, now).models)
  {
    hide Normalize, NextModels, NoCommas, GetModels, Adds, Ignores, Removes;
    GetModelsNoCommas(Join(ApplyOutcome(c, q, now).models, ','));
  }

  /** The model list is rewritten exactly when the set of models changes, and the
      survivors keep their order in front of the new names. */
  lemma ModelsChangeWithTheSet(c: Channel, q: Request, now: int)
    requires Inv(c)
    ensures NextModels(c, q) == Minus(Normalize(c.models), Removes(c, q)) + Minus(Adds(c, q), Normalize(c.models))
    ensures ModelsChanged(c, q) <==> !(forall x :: x in Normalize(c.models) <==> x in NextModels(c, q))
  {
    hide Normalize, Normal, Adds, Removes, NextModels, Minus, ApplyOutcome;
    AppliedIs(c, q, now);
    NextModelsIs(c, q, now);
    Selections(c, q);
    var o := Normalize(c.models);
    if forall x :: x in o <==> x in NextModels(c, q) {
      forall x | x in o
        ensures x !in Removes(c, q)
      {
        assert x in NextModels(c, q);
      }
      MinusNothing(o, Removes(c, q));
      MinusAll(Adds(c, q), o);
      assert o + [] == o;
    }
  }

  lemma HasMember(s: seq<string>)
    ensures s == [] || exists x :: x in s
  {
    if s != [] {
      assert s[0] in s;
    }
  }

  lemma NothingIn(s: seq<string>)
    requires forall x :: x !in s
    ensures s == []
  {
    HasMember(s);
  }

  lemma NothingSelected(d: Channel, q: Request, now: int)
    requires Inv(d) && Normal(d.ignored) && Adds(d, q) == [] && Ignores(d, q) == [] && Removes(d, q) == []
    ensures ApplyOutcome(d, q, now) == d.(lastCheck := now)
  {
    hide Normalize, Normal, Adds, Ignores, Removes, NextModels, Minus, ApplyOutcome;
    AppliedIs(d, q, now);
    MinusNothing(Normalize(d.models), []);
    MinusAll([], Normalize(d.models));
    MinusNothing(d.staged, [] + []);
    MinusNothing(d.removals, []);
    IgnoredUntouched(d, q, now);
    ModelsUntouched(d, q, now);
  }

  lemma ModelsUntouched(d: Channel, q: Request, now: int)
    requires NextModels(d, q) == Normalize(d.models) + []
    ensures ApplyOutcome(d, q, now).models == d.models && ApplyOutcome(d, q, now).autoSync == d.autoSync
    ensures ApplyOutcome(d, q, now).lastCheck == now
  {
    hide Normalize, NextModels;
    assert Normalize(d.models) + [] == Normalize(d.models);
  }

  lemma IgnoredUntouched(d: Channel, q: Request, now: int)
    requires Normal(d.ignored) && Adds(d, q) == [] && Ignores(d, q) == []
    ensures ApplyOutcome(d, q, now).ignored == d.ignored
  {
    hide Normal, NextModels, Adds, Ignores, Removes;
    NormalizeOfNormal(d.ignored);
    assert Normalize([]) == [];
  }

  /** Repeating an apply request changes nothing but the time of the check. */
  lemma ApplyTwice(c: Channel, q: Request, now: int, later: int)
    requires Inv(c)
    ensures Applied(Applied(c, q, now), q, later) == Applied(c, q, now).(lastCheck := later)
  {
    hide Normalize, Normal, Adds, Ignores, Removes, Minus, ApplyOutcome, NextModels, Reread;
    var e, d := ApplyOutcome(c, q, now), Applied(c, q, now);
    ApplyKeeps(c, q, now);
    AppliedIs(c, q, now);
    Selections(c, q);
    Selections(d, q);
    IgnoredAfter(c, q, now);
    MinusIs(c.staged, Adds(c, q) + Ignores(c, q));
    MinusIs(c.removals, Removes(c, q));
    NothingIn(Adds(d, q));
    NothingIn(Ignores(d, q));
    NothingIn(Removes(d, q));
    NothingSelected(d, q, later);
    NothingChanged(d, q, later);
  }

  lemma NothingChanged(d: Channel, q: Request, now: int)
    requires Inv(d) && Adds(d, q) == [] && Removes(d, q) == []
    ensures !ModelsChanged(d, q)
  {
    hide Normalize, Normal, Adds, Ignores, Removes, NextModels, Minus, ApplyOutcome;
    AppliedIs(d, q, now);
    MinusNothing(Normalize(d.models), []);
    MinusAll([], Normalize(d.models));
    assert Normalize(d.models) + [] == Normalize(d.models);
  }

  // ------------------------------------------------------------- convergence

  /** Applying everything that is staged. */
  function Everything(c: Channel): Request { Request(c.staged, [], c.removals) }

  /** An upstream name that nothing covers, and that only stays unstaged because
      of ignore rules which are themselves staged as models. Only entries of the
      regex form can do that to a name other than themselves. */
  ghost predicate LosesItsRule(c: Channel, upstream: seq<string>, mapping: Mapping, rx: Regex, x: string) {
    var rules, add := Normalize(c.ignored), PendingAdd(c.models, upstream, c.ignored, mapping, rx);
    && x in Normalize(upstream) && x !in Normalize(c.models) && x !in mapping.Values
    && Ignored(rules, x, rx) && forall rule | rule in rules && RuleMatches(rule, x, rx) :: rule in add
  }

  lemma ApplyEverything(c: Channel, now: int)
    requires Inv(c)
    ensures var d := ApplyOutcome(c, Everything(c), now);
      && (forall x :: x in Normalize(d.models) <==> (x in Normalize(c.models) && x !in c.removals) || x in c.staged)
      && (forall x :: x in Normalize(d.ignored) <==> x in Normalize(c.ignored) && x !in c.staged)
  {
    hide Normalize, Normal, Adds, Ignores, Removes, NextModels, ApplyOutcome;
    var q := Everything(c);
    NormalizeOfNormal(c.staged);
    NormalizeOfNormal(c.removals);
    NormalizeOfNothing();
    Selections(c, q);
    NextModelsIs(c, q, now);
    IgnoredAfter(c, q, now);
    NormalizeOfNormal(ApplyOutcome(c, q, now).ignored);
  }

  lemma NormalizeOfNothing()
    ensures Normalize([]) == []
  {
  }

  lemma IgnoredWithout(rules: seq<string>, kept: seq<string>, add: seq<string>, x: string, rx: Regex)
    requires forall y :: y in kept <==> y in rules && y !in add
    ensures Ignored(kept, x, rx) <==> exists rule | rule in rules && rule !in add :: RuleMatches(rule, x, rx)
  {
    hide RuleMatches;
  }

  /** Detect, apply everything, detect again, before anything is stored as a string:
      the second detection stages no removal, and stages additions exactly for the
      names that lost their ignore rule. */
  lemma OutcomesConverge(c: Channel, upstream: seq<string>, mapping: Mapping, rx: Regex, t: int, u: int, v: int)
    ensures var staged := CheckOutcome(c, mapping, rx, Models(upstream), true, false, t);
      var again := CheckOutcome(ApplyOutcome(staged, Everything(staged), u), mapping, rx, Models(upstream), true, false, v);
      && again.removals == []
      && (forall x :: x in again.staged <==> LosesItsRule(c, upstream, mapping, rx, x))
  {
    hide Normalize, Normal, Ignored, ApplyOutcome, PendingAdd, PendingRemove, RuleMatches;
    var staged := CheckOutcome(c, mapping, rx, Models(upstream), true, false, t);
    var applied := ApplyOutcome(staged, Everything(staged), u);
    PendingAddOf(c.models, upstream, c.ignored, mapping, rx);
    PendingRemoveIs(c.models, upstream, mapping);
    StagedIsInv(c, upstream, mapping, rx, t);
    ApplyEverything(staged, u);
    PendingAddOf(applied.models, upstream, applied.ignored, mapping, rx);
    PendingRemoveIs(applied.models, upstream, mapping);
    NothingIn(PendingRemove(applied.models, upstream, mapping));
    forall x
      ensures x in PendingAdd(applied.models, upstream, applied.ignored, mapping, rx) <==> LosesItsRule(c, upstream, mapping, rx, x)
    {
      IgnoredWithout(Normalize(c.ignored), Normalize(applied.ignored), staged.staged, x, rx);
      IgnoredIs(Normalize(c.ignored), x, rx);
    }
  }

  lemma IgnoredIs(rules: seq<string>, x: string, rx: Regex)
    ensures Ignored(rules, x, rx) <==> exists rule | rule in rules :: RuleMatches(rule, x, rx)
  {
    hide RuleMatches;
  }

  lemma StagedIsInv(c: Channel, upstream: seq<string>, mapping: Mapping, rx: Regex, now: int)
    ensures Inv(CheckOutcome(c, mapping, rx, Models(upstream), true, false, now))
  {
    hide PendingAdd, PendingRemove, Normalize, Ignored, Normal;
    PendingAddOf(c.models, upstream, c.ignored, mapping, rx);
    PendingRemoveIs(c.models, upstream, mapping);
  }

  /** Detect, apply everything, detect again against the same upstream list, on the channel
      as it is stored: nothing is staged again exactly when no staged name contains a comma
      and no name lost its ignore rule. Without commas nothing is staged for removal, and
      additions are exactly the names that lost their rule. */
  lemma ConvergesWhen(c: Channel, upstream: seq<string>, mapping: Mapping, rx: Regex, t: int, u: int, v: int)
    requires NoCommas(c.models)
    ensures var staged := Checked(c, mapping, rx, Models(upstream), true, false, t);
      var again := Checked(Applied(staged, Everything(staged), u), mapping, rx, Models(upstream), true, false, v);
      && (again.staged == [] <==> NoCommas(staged.staged) && forall x :: !LosesItsRule(c, upstream, mapping, rx, x))
      && (NoCommas(staged.staged) ==>
            again.removals == [] && forall x :: x in again.staged <==> LosesItsRule(c, upstream, mapping, rx, x))
  {
    hide Normalize, Normal, Ignored, ApplyOutcome, CheckOutcome, PendingAdd, PendingRemove, RuleMatches, NoCommas, LosesItsRule,
         Reread, Everything;
    var staged := Checked(c, mapping, rx, Models(upstream), true, false, t);
    CheckStages(c, upstream, mapping, rx, t);
    var applied := Applied(staged, Everything(staged), u);
    CheckStages(applied, upstream, mapping, rx, v);
    var again := Checked(applied, mapping, rx, Models(upstream), true, false, v);
    StagedIsInv(c, upstream, mapping, rx, t);
    if NoCommas(staged.staged) {
      OutcomesConverge(c, upstream, mapping, rx, t, u, v);
      AppliedWithoutCommas(staged, Everything(staged), u);
      HasMember(again.staged);
    } else {
      CommasOf(staged.staged);
      var x :| x in staged.staged && ',' in x;
      StaysUncovered(c, upstream, mapping, rx, t, u, x);
    }
  }

  /** A check that may not adopt anything leaves the models alone. */
  lemma CheckStages(c: Channel, upstream: seq<string>, mapping: Mapping, rx: Regex, now: int)
    ensures Checked(c, mapping, rx, Models(upstream), true, false, now) == CheckOutcome(c, mapping, rx, Models(upstream), true, false, now)
    ensures Checked(c, mapping, rx, Models(upstream), true, false, now)
         == c.(staged := PendingAdd(c.models, upstream, c.ignored, mapping, rx),
               removals := PendingRemove(c.models, upstream, mapping), lastCheck := now)
  {
    hide PendingAdd, PendingRemove, Reread;
  }

  lemma AppliedWithoutCommas(c: Channel, q: Request, now: int)
    requires Inv(c) && NoCommas(c.models) && NoCommas(c.staged)
    ensures Applied(c, q, now) == ApplyOutcome(c, q, now)
  {
    hide Normalize, Normal, Adds, Ignores, Removes, NextModels, Reread, NoCommas;
    NextModelsIs(c, q, now);
    Selections(c, q);
    NormalizeNoCommas(c.models);
    CommasOf(Normalize(c.models));
    CommasOf(c.staged);
    CommasOf(NextModels(c, q));
    NormalIsNonEmpty(NextModels(c, q));
    StoredModels(NextModels(c, q));
  }

  lemma StaysUncovered(c: Channel, upstream: seq<string>, mapping: Mapping, rx: Regex, t: int, u: int, x: string)
    requires NoCommas(c.models) && ',' in x
    requires x in Checked(c, mapping, rx, Models(upstream), true, false, t).staged
    ensures var staged := Checked(c, mapping, rx, Models(upstream), true, false, t);
      var applied := Applied(staged, Everything(staged), u);
      x in PendingAdd(applied.models, upstream, applied.ignored, mapping, rx)
  {
    hide Normalize, Normal, Ignored, ApplyOutcome, CheckOutcome, PendingAdd, PendingRemove, RuleMatches, NoCommas, Reread, ModelsChanged;
    CheckStages(c, upstream, mapping, rx, t);
    var staged := Checked(c, mapping, rx, Models(upstream), true, false, t);
    var applied := Applied(staged, Everything(staged), u);
    PendingAddOf(c.models, upstream, c.ignored, mapping, rx);
    StagedIsInv(c, upstream, mapping, rx, t);
    ApplyEverything(staged, u);
    AppliedNoCommas(staged, Everything(staged), u);
    IgnoredWithout(Normalize(c.ignored), Normalize(applied.ignored), staged.staged, x, rx);
    IgnoredIs(Normalize(c.ignored), x, rx);
    CommaNameComesBack(applied.models, upstream, applied.ignored, mapping, rx, x);
  }

  /** When no upstream name is itself an entry of the ignore list with the regex
      prefix, everything settles exactly when no staged name contains a comma. */
  lemma ConvergesWithoutRegexNames(c: Channel, upstream: seq<string>, mapping: Mapping, rx: Regex, t: int, u: int, v: int)
    requires NoCommas(c.models) && forall x | x in Normalize(upstream) && x in Normalize(c.ignored) :: !IsRegex(x)
    ensures var staged := Checked(c, mapping, rx, Models(upstream), true, false, t);
      var again := Checked(Applied(staged, Everything(staged), u), mapping, rx, Models(upstream), true, false, v);
      again.staged == [] && again.removals == [] <==> NoCommas(staged.staged)
  {
    hide Normalize, Applied, Checked, PendingAdd, LosesItsRule, NoCommas;
    ConvergesWhen(c, upstream, mapping, rx, t, u, v);
    forall x
      ensures !LosesItsRule(c, upstream, mapping, rx, x)
    {
      NoRuleIsLost(c, upstream, mapping, rx, x);
    }
  }

  lemma NoRuleIsLost(c: Channel, upstream: seq<string>, mapping: Mapping, rx: Regex, x: string)
    requires forall y | y in Normalize(upstream) && y in Normalize(c.ignored) :: !IsRegex(y)
    ensures !LosesItsRule(c, upstream, mapping, rx, x)
  {
    hide Normalize, PendingAdd, Normal;
    PendingAddOf(c.models, upstream, c.ignored, mapping, rx);
    var rules := Normalize(c.ignored);
    if Ignored(rules, x, rx) {
      var rule :| rule in rules && RuleMatches(rule, x, rx);
      assert IsRegex(rule) || RuleMatches(rule, rule, rx);
    }
  }

  /** With auto-sync the first check adopts exactly the pending additions, behind
      the models that were there, and before anything is stored as a string a second
      check against the same list finds nothing left to add. */
  lemma AutoSyncAdopts(c: Channel, upstream: seq<string>, mapping: Mapping, rx: Regex, t: int, u: int)
    requires c.autoSync
    ensures var add := PendingAdd(c.models, upstream, c.ignored, mapping, rx);
      var first := CheckOutcome(c, mapping, rx, Models(upstream), true, true, t);
      && Normalize(first.models) == Normalize(c.models) + add && first.staged == []
      && (add == [] ==> first.models == c.models)
      && PendingAdd(first.models, upstream, first.ignored, mapping, rx) == []
      && CheckOutcome(first, mapping, rx, Models(upstream), true, true, u) == first.(lastCheck := u)
  {
    hide Normalize, Normal, Ignored, PendingAdd, PendingRemove, Minus;
    var o, add := Normalize(c.models), PendingAdd(c.models, upstream, c.ignored, mapping, rx);
    var first := CheckOutcome(c, mapping, rx, Models(upstream), true, true, t);
    PendingAddOf(c.models, upstream, c.ignored, mapping, rx);
    NormalizeIs(c.models);
    NormalizeOfNormal(o);
    NormalizeOfNormal(add);
    MinusNothing(add, o);
    AppendNormal(o, add);
    NormalizeOfNormal(o + add);
    assert o + [] == o;
    PendingAddOf(first.models, upstream, first.ignored, mapping, rx);
    NothingIn(PendingAdd(first.models, upstream, first.ignored, mapping, rx));
    SameRemovals(c.models, first.models, upstream, add, mapping);
  }

  lemma SameRemovals(models: seq<string>, more: seq<string>, upstream: seq<string>, add: seq<string>, mapping: Mapping)
    requires Normalize(more) == Normalize(models) + add && forall x | x in add :: x in Normalize(upstream)
    ensures PendingRemove(more, upstream, mapping) == PendingRemove(models, upstream, mapping)
  {
    hide Normalize;
    GoneSplit(Normalize(models), add, mapping.Keys, Normalize(upstream));
  }

  lemma {:induction false} GoneSplit(s: seq<string>, t: seq<string>, sources: set<string>, upstream: seq<string>)
    requires forall x | x in t :: x in upstream
    ensures GoneNames(s + t, sources, upstream) == GoneNames(s, sources, upstream)
  {
    if t == [] {
      assert s + t == s;
    } else {
      var u, n := s + t, |t| - 1;
      assert u[..|u| - 1] == s + t[..n] && u[|u| - 1] == t[n];
      GoneSplit(s, t[..n], sources, upstream);
    }
  }

  /** The condition is needed: an upstream that lists an ignore rule as a model
      loses that rule, and the names it covered are staged by the second check. */
  lemma RegexNameDoesNotConverge(rx: Regex, t: int, u: int, v: int)
    requires rx("^a$", "a") && !rx("^a$", "regex:^a$")
    ensures var c, upstream := Channel([], [], [], ["regex:^a$"], false, 0), ["regex:^a$", "a"];
      var staged := Checked(c, map[], rx, Models(upstream), true, false, t);
      var again := Checked(Applied(staged, Everything(staged), u), map[], rx, Models(upstream), true, false, v);
      "a" in again.staged
  {
    hide Checked, Applied, LosesItsRule, Everything, PendingAdd, Normalize, Normal, Ignored;
    var c, upstream := Channel([], [], [], ["regex:^a$"], false, 0), ["regex:^a$", "a"];
    ExampleLosesItsRule(rx);
    CheckStages(c, upstream, map[], rx, t);
    ExampleNames();
    PendingNoCommas(c.models, upstream, c.ignored, map[], rx);
    ConvergesWhen(c, upstream, map[], rx, t, u, v);
  }

  /** So is the other: a name with a comma is split when it is stored, and staged again. */
  lemma CommaNameDoesNotConverge(rx: Regex, t: int, u: int, v: int)
    ensures var c, upstream := Channel([], [], [], [], false, 0), ["a,b"];
      var staged := Checked(c, map[], rx, Models(upstream), true, false, t);
      var again := Checked(Applied(staged, Everything(staged), u), map[], rx, Models(upstream), true, false, v);
      again.staged != []
  {
    hide Checked, Applied, LosesItsRule, Everything, PendingAdd, Normalize, Normal, Ignored;
    var c, upstream := Channel([], [], [], [], false, 0), ["a,b"];
    CheckStages(c, upstream, map[], rx, t);
    CommaExample(c, rx);
    ConvergesWhen(c, upstream, map[], rx, t, u, v);
  }

  lemma CommaExample(c: Channel, rx: Regex)
    requires c.models == c.ignored == []
    ensures !NoCommas(PendingAdd(c.models, ["a,b"], c.ignored, map[], rx))
  {
    hide Normalize, PendingAdd, Normal;
    var name := "a,b";
    PendingAddOf(c.models, [name], c.ignored, map[], rx);
    NormalizeOfNothing();
    assert name[1] == ',' && name[0] == 'a' && name[2] == 'b';
    NormalizeHas([name], name);
    CommasOf(PendingAdd(c.models, [name], c.ignored, map[], rx));
  }

  lemma ExampleLosesItsRule(rx: Regex)
    requires rx("^a$", "a") && !rx("^a$", "regex:^a$")
    ensures LosesItsRule(Channel([], [], [], ["regex:^a$"], false, 0), ["regex:^a$", "a"], map[], rx, "a")
  {
    hide Normalize, PendingAdd, Normal, Tight, TrimSpace, RuleMatches;
    var rule, names := "regex:^a$", ["regex:^a$", "a"];
    ExampleNames();
    ExampleRule(rx);
    NormalizeOfNothing();
    PendingAddOf([], names, [rule], map[], rx);
    assert names[0] == rule && names[1] == "a";
    assert rule in [rule];
  }

  lemma PendingNoCommas(models: seq<string>, upstream: seq<string>, ignored: seq<string>, mapping: Mapping, rx: Regex)
    requires NoCommas(Normalize(upstream))
    ensures NoCommas(PendingAdd(models, upstream, ignored, mapping, rx))
  {
    hide Normalize, PendingAdd, Normal;
    PendingAddOf(models, upstream, ignored, mapping, rx);
    SubsetNoCommas(PendingAdd(models, upstream, ignored, mapping, rx), Normalize(upstream));
  }

  lemma ExampleNames()
    ensures NoCommas(["regex:^a$", "a"])
    ensures Normalize(["regex:^a$", "a"]) == ["regex:^a$", "a"] && Normalize(["regex:^a$"]) == ["regex:^a$"]
  {
    hide Normalize;
    assert |"regex:^a$"| != |"a"|;
    NormalizeOfNormal(["regex:^a$", "a"]);
    NormalizeOfNormal(["regex:^a$"]);
  }

  lemma ExampleRule(rx: Regex)
    ensures RuleMatches("regex:^a$", "a", rx) == rx("^a$", "a")
    ensures RuleMatches("regex:^a$", "regex:^a$", rx) == rx("^a$", "regex:^a$")
  {
    var rule := "regex:^a$";
    assert rule[..6] == "regex:" && rule[6..] == "^a$";
    TrimOfTight("^a$");
  }

  // ------------------------------------------------------------- the stored record

  /** A list of names survives being stored exactly when no name contains a comma. */
  lemma StoredModels(names: seq<string>)
    requires forall i | 0 <= i < |names| :: names[i] != ""
    ensures Reread(names) == names <==> NoCommas(names)
  {
    GetModelsNoCommas(Join(names, ','));
    if names != [] && NoCommas(names) {
      JoinEnds(names, ',');
      SplitJoin(names, ',');
    }
  }

  lemma GetModelsNoCommas(models: string)
    ensures NoCommas(GetModels(models))
  {
    SplitIs(TrimChar(models, ','), ',');
  }

  lemma NormalizeNoCommas(names: seq<string>)
    requires NoCommas(names)
    ensures NoCommas(Normalize(names))
  {
    TrimmedNoCommas(names);
    UniqIs(Trimmed(names));
    SubsetNoCommas(Uniq(Trimmed(names)), Trimmed(names));
  }

  lemma {:induction false} TrimmedNoCommas(names: seq<string>)
    requires NoCommas(names)
    ensures NoCommas(Trimmed(names))
  {
    if names != [] {
      TrimmedNoCommas(names[..|names| - 1]);
      TrimAddsNothing(names[|names| - 1], ',');
    }
  }

  lemma SubsetNoCommas(s: seq<string>, t: seq<string>)
    requires NoCommas(t) && forall x | x in s :: x in t
    ensures NoCommas(s)
  {
    forall i | 0 <= i < |s|
      ensures ',' !in s[i]
    {
      assert s[i] in t;
    }
  }

  /** The channel as it is stored: the models as one comma-joined string. */
  class ChannelRecord {
    var models: string
    var staged: seq<string>
    var removals: seq<string>
    var ignored: seq<string>
    var autoSync: bool
    var lastCheck: int

    constructor (models: string, ignored: seq<string>, autoSync: bool)
      ensures Valid() && View() == Channel(GetModels(models), [], [], ignored, autoSync, 0)
    {
      this.models, this.ignored, this.autoSync := models, ignored, autoSync;
      staged, removals, lastCheck := [], [], 0;
      new;
      NormalOfNothing();
    }

    function View(): Channel
      reads this
    {
      Channel(GetModels(models), staged, removals, ignored, autoSync, lastCheck)
    }

    ghost predicate Valid()
      reads this
    {
      Inv(View())
    }

    method CheckAndPersist(mapping: Mapping, rx: Regex, reply: Reply, force: bool, allowAuto: bool, now: int, minInterval: int)
      returns (modelsChanged: bool, autoAdded: int)
      requires Valid()
      modifies this
      ensures Valid()
      ensures var due := force || !(old(lastCheck) > 0 && now - old(lastCheck) < minInterval);
        && View() == Checked(old(View()), mapping, rx, reply, due, allowAuto, now)
        && autoAdded == |Normalize(CheckOutcome(old(View()), mapping, rx, reply, due, allowAuto, now).models)| - |Normalize(old(View()).models)|
        && modelsChanged == (autoAdded > 0)
        && (!due ==> View() == old(View()) && autoAdded == 0)
        && (due && reply.FetchError? ==> View() == old(View()).(lastCheck := now) && autoAdded == 0)
        && ignored == old(ignored) && autoSync == old(autoSync) && (due ==> lastCheck == now)
        && (!(allowAuto && autoSync) ==> models == old(models))
    {
      hide Normalize, Inv, PendingAdd, PendingRemove, GetModels;
      modelsChanged, autoAdded := false, 0;
      if !force {
        if lastCheck > 0 && now - lastCheck < minInterval {
          return;
        }
      }
      ghost var before := View();
      CheckKeeps(before, mapping, rx, reply, true, allowAuto, now);
      if reply.FetchError? {
        lastCheck := now;
        return;
      }
      var pendingAdd := PendingAdd(GetModels(models), reply.names, ignored, mapping, rx);
      var pendingRemove := PendingRemove(GetModels(models), reply.names, mapping);
      lastCheck := now;
      PendingAddOf(before.models, reply.names, ignored, mapping, rx);
      if allowAuto && autoSync && |pendingAdd| > 0 {
        var origin := Normalize(GetModels(models));
        var merged := MergeModelNames(origin, pendingAdd);
        AdoptedModels(models, pendingAdd);
        if |merged| > |origin| {
          models := Join(merged, ',');
          autoAdded := |merged| - |origin|;
          modelsChanged := true;
        }
        staged := [];
      } else {
        staged := pendingAdd;
      }
      removals := pendingRemove;
    }

    method ApplyUpdates(q: Request, now: int)
      returns (added: seq<string>, removed: seq<string>, remaining: seq<string>, remainingRemove: seq<string>, modelsChanged: bool)
      requires Valid()
      modifies this
      ensures Valid() && View() == Applied(old(View()), q, now)
      ensures added == Adds(old(View()), q) && removed == Removes(old(View()), q)
      ensures remaining == View().staged && remainingRemove == View().removals
      ensures modelsChanged == ModelsChanged(old(View()), q)
    {
      hide Normalize, Inv, GetModels, IntersectModelNames, SubtractModelNames, ApplySelectedModelChanges;
      ghost var before := View();
      ApplyKeeps(before, q, now);
      var pendingAdd := Normalize(staged);
      var pendingRemove := Normalize(removals);
      added := IntersectModelNames(q.add, pendingAdd);
      var ignoring := IntersectModelNames(q.ignore, pendingAdd);
      removed := IntersectModelNames(q.remove, pendingRemove);
      removed := SubtractModelNames(removed, added);
      var origin := Normalize(GetModels(models));
      var next := ApplySelectedModelChanges(origin, added, removed);
      modelsChanged := origin != next;
      if modelsChanged {
        models := Join(next, ',');
      }
      ignored := MergeModelNames(ignored, ignoring);
      if |added| > 0 {
        ignored := SubtractModelNames(ignored, added);
      }
      remaining := SubtractModelNames(pendingAdd, added + ignoring);
      remainingRemove := SubtractModelNames(pendingRemove, removed);
      staged := remaining;
      removals := remainingRemove;
      lastCheck := now;
    }
  }

  lemma NormalIsNonEmpty(s: seq<string>)
    requires Normal(s)
    ensures forall i | 0 <= i < |s| :: s[i] != ""
  {
    hide Tight;
  }

  lemma NormalOfNothing()
    ensures Normal([])
  {
  }

  lemma AdoptedModels(models: string, add: seq<string>)
    requires Normal(add)
    ensures var origin := Normalize(GetModels(models));
      var merged := Merge(Normalize(origin), Normalize(add));
      Normalize(merged) == merged && |merged| >= |origin|
  {
    hide Normalize, GetModels, Minus, Tight;
    var origin := Normalize(GetModels(models));
    NormalizeIs(GetModels(models));
    NormalizeOfNormal(origin);
    NormalizeOfNormal(add);
    MergeNormal(origin, add);
    NormalizeOfNormal(Merge(origin, add));
  }

  /** A name with a comma is never read back, so a check finds it missing again. */
  lemma CommaNameComesBack(models: seq<string>, upstream: seq<string>, ignored: seq<string>, mapping: Mapping, rx: Regex, x: string)
    requires NoCommas(models) && x in Normalize(upstream) && x !in mapping.Values && !Ignored(Normalize(ignored), x, rx) && ',' in x
    ensures x in PendingAdd(models, upstream, ignored, mapping, rx)
  {
    hide Normalize, PendingAdd, Ignored;
    PendingAddOf(models, upstream, ignored, mapping, rx);
    NormalizeNoCommas(models);
    CommaFree(Normalize(models), x);
  }

  lemma CommaFree(names: seq<string>, x: string)
    requires NoCommas(names) && ',' in x
    ensures x !in names
  {
  }

  lemma AllFromEither(s: seq<string>, t: seq<string>)
    requires NoCommas(s) && NoCommas(t)
    ensures NoCommas(s + t)
  {
  }

  /** Auto-sync adopts the pending additions. On the channel as it is stored it has converged
      exactly when no name that it adopts contains a comma: then the second check changes
      nothing but the time, otherwise it finds something to add, every time. */
  lemma AutoSyncConvergesWhen(c: Channel, upstream: seq<string>, mapping: Mapping, rx: Regex, t: int, u: int)
    requires c.autoSync && NoCommas(c.models)
    ensures var add := PendingAdd(c.models, upstream, c.ignored, mapping, rx);
      var first := Checked(c, mapping, rx, Models(upstream), true, true, t);
      && first.staged == [] && (NoCommas(add) ==> Normalize(first.models) == Normalize(c.models) + add)
      && (PendingAdd(first.models, upstream, first.ignored, mapping, rx) == [] <==> NoCommas(add))
      && (NoCommas(add) ==> Checked(first, mapping, rx, Models(upstream), true, true, u) == first.(lastCheck := u))
  {
    hide Normalize, PendingAdd, PendingRemove, Ignored, GetModels, Minus, Normal, NoCommas;
    var o, add := Normalize(c.models), PendingAdd(c.models, upstream, c.ignored, mapping, rx);
    var outcome := CheckOutcome(c, mapping, rx, Models(upstream), true, true, t);
    AutoSyncAdopts(c, upstream, mapping, rx, t, u);
    PendingAddOf(c.models, upstream, c.ignored, mapping, rx);
    CommasOf(add);
    if add != [] {
      AdoptedAll(c, upstream, mapping, rx, t);
      if NoCommas(add) {
        NormalizeNoCommas(c.models);
        AllFromEither(o, add);
        StoredModels(o + add);
      } else {
        var x :| x in add && ',' in x;
        GetModelsNoCommas(Join(outcome.models, ','));
        CommaNameComesBack(Reread(outcome.models), upstream, c.ignored, mapping, rx, x);
      }
    }
  }

  lemma CommasOf(names: seq<string>)
    ensures NoCommas(names) <==> forall x | x in names :: ',' !in x
    ensures names == [] ==> NoCommas(names)
  {
  }

  lemma AdoptedAll(c: Channel, upstream: seq<string>, mapping: Mapping, rx: Regex, t: int)
    requires c.autoSync && PendingAdd(c.models, upstream, c.ignored, mapping, rx) != []
    ensures var add := PendingAdd(c.models, upstream, c.ignored, mapping, rx);
      var checked := CheckOutcome(c, mapping, rx, Models(upstream), true, true, t);
      && checked.models == Normalize(c.models) + add && checked.models != c.models && checked.ignored == c.ignored
      && forall i | 0 <= i < |checked.models| :: checked.models[i] != ""
  {
    hide Normalize, PendingAdd, PendingRemove, Ignored, Minus, Tight;
    var o, add := Normalize(c.models), PendingAdd(c.models, upstream, c.ignored, mapping, rx);
    PendingAddOf(c.models, upstream, c.ignored, mapping, rx);
    NormalizeIs(c.models);
    NormalizeOfNormal(o);
    NormalizeOfNormal(add);
    MinusNothing(add, o);
    AppendNormal(o, add);
    NormalizeOfNormal(o + add);
    NormalIsNonEmpty(o);
    NormalIsNonEmpty(add);
  }
}
