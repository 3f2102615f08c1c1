/**
 * The read-merge-write of an IAM role policy, as a function on JSON documents, and what a policy
 * document means: an explicit Deny wins, then any matching Allow.
 */
module PolicyMerge {
  import Text

  datatype Json =
    | JNull
    | JBool(b: bool)
    | JNumber(n: int)
    | JString(s: string)
    | JArray(items: seq<Json>)
    | JObject(fields: map<string, Json>)

  /** A statement keeps every field it came with. */
  type Statement = map<string, Json>

  /** A policy document whose `Statement` is an array; `others` holds its remaining top-level fields. */
  datatype Document = Document(version: Json, statements: seq<Statement>, others: map<string, Json>)

  const EMPTY_POLICY: Document := Document(JString("2012-10-17"), [], map[])

  const ALLOW: Json := JString("Allow")
  const DENY: Json := JString("Deny")
  const ANY: Json := JString("*")

  /** A missing field reads as null. */
  function Field(st: Statement, name: string): Json {
    if name in st then st[name] else JNull
  }

  /** The strings of a value that is a string or a (nested) array of strings; anything else has none. */
  function Strings(j: Json): seq<string>
    decreases j, 1
  {
    match j
    case JString(s) => [s]
    case JArray(items) => StringsOf(items)
    case _ => []
  }

  function StringsOf(items: seq<Json>): seq<string>
    decreases items, 0
  {
    if items == [] then [] else Strings(items[0]) + StringsOf(items[1..])
  }

  function JStrings(ss: seq<string>): Json {
    JArray(seq(|ss|, i requires 0 <= i < |ss| => JString(ss[i])))
  }

  // ---------------------------------------------------------------- the merge

  /** The statements whose actions are collected: plain Allows on every resource. */
  predicate Collected(st: Statement) {
    && Field(st, "Effect") == ALLOW
    && Field(st, "Condition") == JNull && Field(st, "NotAction") == JNull && Field(st, "NotResource") == JNull
    && !Field(st, "Resource").JArray?
    && (Field(st, "Resource") == JNull || Field(st, "Resource") == ANY)
  }

  predicate NotAllow(st: Statement) {
    Field(st, "Effect") != ALLOW
  }

  /** The Allow statements that are kept word for word. */
  predicate KeptScoped(st: Statement) {
    && Field(st, "Effect") == ALLOW
    && (|| Field(st, "Condition") != JNull || Field(st, "NotAction") != JNull || Field(st, "NotResource") != JNull
        || Field(st, "Resource").JArray?
        || (Field(st, "Resource") != JNull && Field(st, "Resource") != ANY))
  }

  function Select(sts: seq<Statement>, p: Statement -> bool): seq<Statement> {
    if sts == [] then []
    else Select(sts[..|sts| - 1], p) + (if p(sts[|sts| - 1]) then [sts[|sts| - 1]] else [])
  }

  /** The actions of the collected statements. */
  function Current(sts: seq<Statement>): seq<string> {
    if sts == [] then []
    else Current(sts[..|sts| - 1]) +
         (if Collected(sts[|sts| - 1]) then Strings(Field(sts[|sts| - 1], "Action")) else [])
  }

  function MergedStatement(actions: seq<string>): Statement {
    map["Effect" := ALLOW, "Action" := JStrings(actions), "Resource" := ANY]
  }

  function Version(version: Json): Json {
    if version == JNull || version == JBool(false) then JString("2012-10-17") else version
  }

  function Merge(doc: Document, added: seq<string>): Document {
    Document(
      Version(doc.version),
      Select(doc.statements, NotAllow) + Select(doc.statements, KeptScoped)
        + [MergedStatement(Text.Unique(Current(doc.statements) + added))],
      map[])
  }

  // ---------------------------------------------------------------- what a document means

  /** A request, with the outcome of every condition block in its context. */
  datatype Request = Request(action: string, resource: string, holds: Json -> bool)

  /** Action names are compared without regard to letter case. */
  predicate NamesAction(pattern: string, action: string) {
    Text.Glob(Text.Lower(pattern), Text.Lower(action))
  }

  predicate SomeAction(patterns: seq<string>, action: string) {
    exists p | p in patterns :: NamesAction(p, action)
  }

  predicate SomeResource(patterns: seq<string>, resource: string) {
    exists p | p in patterns :: Text.Glob(p, resource)
  }

  predicate Matches(st: Statement, r: Request) {
    && (if Field(st, "NotAction") != JNull then !SomeAction(Strings(Field(st, "NotAction")), r.action)
        else SomeAction(Strings(Field(st, "Action")), r.action))
    && (if Field(st, "NotResource") != JNull then !SomeResource(Strings(Field(st, "NotResource")), r.resource)
        else if Field(st, "Resource") == JNull then true
        else SomeResource(Strings(Field(st, "Resource")), r.resource))
    && (Field(st, "Condition") == JNull || r.holds(Field(st, "Condition")))
  }

  predicate Effective(sts: seq<Statement>, effect: Json, r: Request) {
    exists i | 0 <= i < |sts| :: Field(sts[i], "Effect") == effect && Matches(sts[i], r)
  }

  datatype Decision = ExplicitDeny | Allowed | ImplicitDeny

  function Evaluate(doc: Document, r: Request): Decision {
    if Effective(doc.statements, DENY, r) then ExplicitDeny
    else if Effective(doc.statements, ALLOW, r) then Allowed
    else ImplicitDeny
  }

  // ---------------------------------------------------------------- the merge preserves meaning

  /** The two selections of Allow statements are exact complements. */
  lemma CollectorIsComplement(st: Statement)
    requires Field(st, "Effect") == ALLOW
    ensures Collected(st) <==> !KeptScoped(st)
  {}

  lemma {:induction false} SelectEffective(sts: seq<Statement>, p: Statement -> bool, effect: Json, r: Request)
    ensures Effective(Select(sts, p), effect, r) <==>
      exists i | 0 <= i < |sts| :: p(sts[i]) && Field(sts[i], "Effect") == effect && Matches(sts[i], r)
  {
    if sts != [] {
      var n := |sts| - 1;
      SelectEffective(sts[..n], p, effect, r);
      EffectiveAppend(Select(sts[..n], p), if p(sts[n]) then [sts[n]] else [], effect, r);
      OneEffective(sts[n], effect, r);
      if p(sts[n]) && Effective([sts[n]], effect, r) {
        assert p(sts[n]);
      }
      forall i | 0 <= i < n ensures sts[..n][i] == sts[i] {}
    }
  }

  lemma OneEffective(st: Statement, effect: Json, r: Request)
    ensures Effective([st], effect, r) <==> Field(st, "Effect") == effect && Matches(st, r)
  {
    assert [st][0] == st;
  }

  lemma EffectiveAppend(a: seq<Statement>, b: seq<Statement>, effect: Json, r: Request)
    ensures Effective(a + b, effect, r) <==> Effective(a, effect, r) || Effective(b, effect, r)
  {
    if Effective(a, effect, r) {
      var i :| 0 <= i < |a| && Field(a[i], "Effect") == effect && Matches(a[i], r);
      assert (a + b)[i] == a[i];
    }
    if Effective(b, effect, r) {
      var i :| 0 <= i < |b| && Field(b[i], "Effect") == effect && Matches(b[i], r);
      assert (a + b)[|a| + i] == b[i];
    }
  }

  lemma SomeActionAppend(a: seq<string>, b: seq<string>, action: string)
    ensures SomeAction(a + b, action) <==> SomeAction(a, action) || SomeAction(b, action)
  {
    if SomeAction(a, action) || SomeAction(b, action) {
      var p :| (p in a || p in b) && NamesAction(p, action);
      assert p in a + b;
    }
  }

  lemma {:induction false} CurrentMatches(sts: seq<Statement>, r: Request)
    ensures SomeAction(Current(sts), r.action) <==> exists i | 0 <= i < |sts| :: Collected(sts[i]) && Matches(sts[i], r)
  {
    if sts != [] {
      var n := |sts| - 1;
      CurrentMatches(sts[..n], r);
      SomeActionAppend(Current(sts[..n]), if Collected(sts[n]) then Strings(Field(sts[n], "Action")) else [], r.action);
      AnyResource(r.resource);
    }
  }

  lemma AnyResource(resource: string)
    ensures SomeResource(Strings(ANY), resource)
  {
    Text.StarMatchesAll(resource);
    assert "*" in Strings(ANY);
  }

  lemma {:induction false} StringsOfStrings(ss: seq<string>)
    ensures Strings(JStrings(ss)) == ss
  {
    if ss != [] {
      StringsOfStrings(ss[1..]);
      var items := JStrings(ss).items;
      assert items[1..] == JStrings(ss[1..]).items;
      assert StringsOf(items) == Strings(items[0]) + StringsOf(items[1..]);
      assert ss == [ss[0]] + ss[1..];
    }
  }

  lemma MergedMatches(actions: seq<string>, r: Request)
    ensures Matches(MergedStatement(actions), r) <==> SomeAction(actions, r.action)
  {
    StringsOfStrings(actions);
    AnyResource(r.resource);
  }

  lemma UniqueMatches(actions: seq<string>, action: string)
    ensures SomeAction(Text.Unique(actions), action) <==> SomeAction(actions, action)
  {
    Text.UniqueSorts(actions);
  }

  lemma MergeParts(doc: Document, added: seq<string>, effect: Json, r: Request)
    ensures Effective(Merge(doc, added).statements, effect, r) <==>
      || Effective(Select(doc.statements, NotAllow), effect, r)
      || Effective(Select(doc.statements, KeptScoped), effect, r)
      || (effect == ALLOW && (SomeAction(Current(doc.statements), r.action) || SomeAction(added, r.action)))
  {
    var denies, scoped := Select(doc.statements, NotAllow), Select(doc.statements, KeptScoped);
    var all := Current(doc.statements) + added;
    var merged := MergedStatement(Text.Unique(all));
    EffectiveAppend(denies + scoped, [merged], effect, r);
    EffectiveAppend(denies, scoped, effect, r);
    OneEffective(merged, effect, r);
    MergedMatches(Text.Unique(all), r);
    UniqueMatches(all, r.action);
    SomeActionAppend(Current(doc.statements), added, r.action);
  }

  /** Explicit denials do not change at all, ... */
  lemma MergeKeepsDenials(doc: Document, added: seq<string>, r: Request)
    ensures Effective(Merge(doc, added).statements, DENY, r) <==> Effective(doc.statements, DENY, r)
  {
    MergeParts(doc, added, DENY, r);
    SelectEffective(doc.statements, NotAllow, DENY, r);
    SelectEffective(doc.statements, KeptScoped, DENY, r);
  }

  /** ... and the Allows gain exactly the added actions, on every resource. */
  lemma MergeExtendsAllows(doc: Document, added: seq<string>, r: Request)
    ensures Effective(Merge(doc, added).statements, ALLOW, r) <==>
      Effective(doc.statements, ALLOW, r) || SomeAction(added, r.action)
  {
    MergeParts(doc, added, ALLOW, r);
    SelectEffective(doc.statements, NotAllow, ALLOW, r);
    SelectEffective(doc.statements, KeptScoped, ALLOW, r);
    CurrentMatches(doc.statements, r);
    forall i | 0 <= i < |doc.statements| && Field(doc.statements[i], "Effect") == ALLOW
      ensures Collected(doc.statements[i]) <==> !KeptScoped(doc.statements[i])
    {
      CollectorIsComplement(doc.statements[i]);
    }
  }

  /** The new document denies what the old one denied, and otherwise allows the old requests and the added actions. */
  lemma MergePreservesMeaning(doc: Document, added: seq<string>, r: Request)
    ensures Evaluate(Merge(doc, added), r) ==
      match Evaluate(doc, r)
      case ImplicitDeny => if SomeAction(added, r.action) then Allowed else ImplicitDeny
      case decided => decided
  {
    MergeKeepsDenials(doc, added, r);
    MergeExtendsAllows(doc, added, r);
  }

  // ---------------------------------------------------------------- the merge accumulates

  lemma {:induction false} SelectAppend(a: seq<Statement>, b: seq<Statement>, p: Statement -> bool)
    ensures Select(a + b, p) == Select(a, p) + Select(b, p)
  {
    if b == [] {
      assert a + b == a;
    } else {
      var n := |b| - 1;
      SelectAppend(a, b[..n], p);
      assert (a + b)[..|a + b| - 1] == a + b[..n];
    }
  }

  lemma SelectOne(st: Statement, p: Statement -> bool)
    ensures Select([st], p) == if p(st) then [st] else []
  {
    assert [st][..0] == [];
  }

  lemma {:induction false} SelectAgain(sts: seq<Statement>, p: Statement -> bool)
    ensures Select(Select(sts, p), p) == Select(sts, p)
  {
    if sts != [] {
      var n := |sts| - 1;
      SelectAgain(sts[..n], p);
      SelectAppend(Select(sts[..n], p), if p(sts[n]) then [sts[n]] else [], p);
      SelectOne(sts[n], p);
    }
  }

  lemma {:induction false} SelectDisjoint(sts: seq<Statement>, p: Statement -> bool, q: Statement -> bool)
    requires forall st | st in sts :: !(p(st) && q(st))
    ensures Select(Select(sts, p), q) == []
  {
    if sts != [] {
      var n := |sts| - 1;
      SelectDisjoint(sts[..n], p, q);
      SelectAppend(Select(sts[..n], p), if p(sts[n]) then [sts[n]] else [], q);
      SelectOne(sts[n], q);
      assert sts[n] in sts;
    }
  }

  lemma {:induction false} CurrentAppend(a: seq<Statement>, b: seq<Statement>)
    ensures Current(a + b) == Current(a) + Current(b)
  {
    if b == [] {
      assert a + b == a;
    } else {
      var n := |b| - 1;
      CurrentAppend(a, b[..n]);
      assert (a + b)[..|a + b| - 1] == a + b[..n];
    }
  }

  lemma {:induction false} NoneCollected(sts: seq<Statement>, p: Statement -> bool)
    requires forall st | st in sts :: !(p(st) && Collected(st))
    ensures Current(Select(sts, p)) == []
  {
    if sts != [] {
      var n := |sts| - 1;
      NoneCollected(sts[..n], p);
      CurrentAppend(Select(sts[..n], p), if p(sts[n]) then [sts[n]] else []);
      CurrentOne(sts[n]);
      assert sts[n] in sts;
    }
  }

  lemma CurrentOne(st: Statement)
    ensures Current([st]) == if Collected(st) then Strings(Field(st, "Action")) else []
  {
    assert [st][..0] == [];
  }

  lemma SelectMerged(doc: Document, added: seq<string>, p: Statement -> bool)
    ensures Select(Merge(doc, added).statements, p) ==
      Select(Select(doc.statements, NotAllow), p) + Select(Select(doc.statements, KeptScoped), p)
        + if p(MergedStatement(Text.Unique(Current(doc.statements) + added)))
          then [MergedStatement(Text.Unique(Current(doc.statements) + added))] else []
  {
    var denies, scoped := Select(doc.statements, NotAllow), Select(doc.statements, KeptScoped);
    var merged := MergedStatement(Text.Unique(Current(doc.statements) + added));
    SelectAppend(denies + scoped, [merged], p);
    SelectAppend(denies, scoped, p);
    SelectOne(merged, p);
  }

  /** A second merge finds the statements that the first one kept, ... */
  lemma MergeAgainKeeps(doc: Document, added: seq<string>)
    ensures Select(Merge(doc, added).statements, NotAllow) == Select(doc.statements, NotAllow)
    ensures Select(Merge(doc, added).statements, KeptScoped) == Select(doc.statements, KeptScoped)
  {
    var actions := Text.Unique(Current(doc.statements) + added);
    SelectMerged(doc, added, NotAllow);
    SelectAgain(doc.statements, NotAllow);
    SelectDisjoint(doc.statements, KeptScoped, NotAllow);
    MergedIsCollected(actions);
    SelectMerged(doc, added, KeptScoped);
    SelectDisjoint(doc.statements, NotAllow, KeptScoped);
    SelectAgain(doc.statements, KeptScoped);
  }

  lemma MergedIsCollected(actions: seq<string>)
    ensures var st := MergedStatement(actions);
      Collected(st) && !NotAllow(st) && !KeptScoped(st) && Field(st, "Action") == JStrings(actions)
  {}

  /** ... and collects exactly the actions that the first one had merged. */
  lemma MergeAgainCollects(doc: Document, added: seq<string>)
    ensures Current(Merge(doc, added).statements) == Text.Unique(Current(doc.statements) + added)
  {
    var denies, scoped := Select(doc.statements, NotAllow), Select(doc.statements, KeptScoped);
    var actions := Text.Unique(Current(doc.statements) + added);
    StringsOfStrings(actions);
    MergedIsCollected(actions);
    CurrentAppend(denies + scoped, [MergedStatement(actions)]);
    CurrentAppend(denies, scoped);
    NoneCollected(doc.statements, NotAllow);
    NoneCollected(doc.statements, KeptScoped);
    CurrentOne(MergedStatement(actions));
  }

  /** Merging twice is merging once with both lists: the very same document. */
  lemma MergeAccumulates(doc: Document, a: seq<string>, b: seq<string>)
    ensures Merge(Merge(doc, a), b) == Merge(doc, a + b)
  {
    MergeAgainKeeps(doc, a);
    MergeAgainCollects(doc, a);
    var current := Current(doc.statements);
    Text.UniqueSorts(current + a);
    Text.SameElementsSameUnique(Text.Unique(current + a) + b, current + (a + b));
  }

  /** So running the same script again changes nothing. */
  lemma RerunChangesNothing(doc: Document, added: seq<string>)
    ensures Merge(Merge(doc, added), added) == Merge(doc, added)
  {
    MergeAccumulates(doc, added, added);
    Text.SameElementsSameUnique(Current(doc.statements) + (added + added), Current(doc.statements) + added);
  }

  /** Any number of merges. */
  function MergeAll(doc: Document, scripts: seq<seq<string>>): Document {
    if scripts == [] then doc else Merge(MergeAll(doc, scripts[..|scripts| - 1]), scripts[|scripts| - 1])
  }

  /** Deny and scoped statements keep their order and content through any number of merges. */
  lemma {:induction false} StatementsSurvive(doc: Document, scripts: seq<seq<string>>)
    ensures Select(MergeAll(doc, scripts).statements, NotAllow) == Select(doc.statements, NotAllow)
    ensures Select(MergeAll(doc, scripts).statements, KeptScoped) == Select(doc.statements, KeptScoped)
  {
    if scripts != [] {
      StatementsSurvive(doc, scripts[..|scripts| - 1]);
      MergeAgainKeeps(MergeAll(doc, scripts[..|scripts| - 1]), scripts[|scripts| - 1]);
    }
  }

  /** A merged document keeps its version, or gets the current one, and loses every other top-level field. */
  lemma MergedFields(doc: Document, added: seq<string>)
    ensures doc.version == JNull || doc.version == JBool(false) ==> Merge(doc, added).version == JString("2012-10-17")
    ensures doc.version != JNull && doc.version != JBool(false) ==> Merge(doc, added).version == doc.version
    ensures Merge(doc, added).others == map[]
  {}

  /** An Allow on every resource, with nothing that narrows it. */
  predicate IsPlainAllow(st: Statement) {
    && "Effect" in st && st["Effect"] == JString("Allow")
    && ("Condition" in st ==> st["Condition"] == JNull)
    && ("NotAction" in st ==> st["NotAction"] == JNull)
    && ("NotResource" in st ==> st["NotResource"] == JNull)
    && ("Resource" in st ==> st["Resource"] == JNull || st["Resource"] == JString("*"))
  }

  lemma {:induction false} SelectOf(sts: seq<Statement>, p: Statement -> bool)
    ensures forall st :: st in Select(sts, p) <==> st in sts && p(st)
  {
    if sts != [] {
      var n := |sts| - 1;
      SelectOf(sts[..n], p);
      assert sts == sts[..n] + [sts[n]];
    }
  }

  lemma {:induction false} CurrentOf(sts: seq<Statement>)
    ensures forall a :: a in Current(sts) <==>
              exists st | st in sts :: IsPlainAllow(st) && "Action" in st && a in Strings(st["Action"])
  {
    if sts != [] {
      var n := |sts| - 1;
      CurrentOf(sts[..n]);
      assert sts == sts[..n] + [sts[n]];
      assert Collected(sts[n]) <==> IsPlainAllow(sts[n]);
    }
  }

  lemma PlainOrKept(st: Statement)
    ensures !IsPlainAllow(st) <==> NotAllow(st) || KeptScoped(st)
  {}

  /**
   * What a merged document holds: every statement that is not a plain Allow, word for word, and one Allow
   * on "*" with the actions of the plain Allows and the added ones, sorted and without repetition.
   */
  lemma MergedStatements(doc: Document, added: seq<string>) returns (actions: seq<string>)
    ensures var sts := Merge(doc, added).statements;
      && sts != [] && sts[|sts| - 1] == map["Effect" := JString("Allow"), "Action" := JStrings(actions), "Resource" := JString("*")]
      && forall st :: st in sts[..|sts| - 1] <==> st in doc.statements && !IsPlainAllow(st)
    ensures Text.Sorted(actions)
    ensures forall a :: a in actions <==>
      a in added || exists st | st in doc.statements :: IsPlainAllow(st) && "Action" in st && a in Strings(st["Action"])
  {
    actions := Text.Unique(Current(doc.statements) + added);
    Text.UniqueSorts(Current(doc.statements) + added);
    CurrentOf(doc.statements);
    SelectOf(doc.statements, NotAllow);
    SelectOf(doc.statements, KeptScoped);
    var kept := Select(doc.statements, NotAllow) + Select(doc.statements, KeptScoped);
    assert Merge(doc, added).statements == kept + [MergedStatement(actions)];
    forall st ensures st in kept <==> st in doc.statements && !IsPlainAllow(st) {
      PlainOrKept(st);
    }
  }

  // ---------------------------------------------------------------- the meaning in full

  /** A Deny that matches decides; without one, an Allow that matches does; without either nothing is granted. */
  lemma DecisionMeans(doc: Document, r: Request)
    ensures Evaluate(doc, r) == ExplicitDeny <==>
      exists st | st in doc.statements :: "Effect" in st && st["Effect"] == JString("Deny") && Matches(st, r)
    ensures Evaluate(doc, r) == Allowed <==>
      && (forall st | st in doc.statements && "Effect" in st && st["Effect"] == JString("Deny") :: !Matches(st, r))
      && exists st | st in doc.statements :: "Effect" in st && st["Effect"] == JString("Allow") && Matches(st, r)
  {
    assert forall st | st in doc.statements :: exists i :: 0 <= i < |doc.statements| && doc.statements[i] == st;
  }

  /** A statement matches the requests that its lists name, or do not name, if its condition holds for them. */
  lemma MatchesMeans(actions: seq<string>, resources: seq<string>, condition: Json, effect: Json, r: Request)
    requires condition != JNull
    ensures Matches(map["Effect" := effect, "Action" := JStrings(actions), "Resource" := JStrings(resources)], r)
      <==> SomeAction(actions, r.action) && SomeResource(resources, r.resource)
    ensures Matches(map["Effect" := effect, "NotAction" := JStrings(actions), "Resource" := JStrings(resources)], r)
      <==> !SomeAction(actions, r.action) && SomeResource(resources, r.resource)
    ensures Matches(map["Effect" := effect, "Action" := JStrings(actions), "NotResource" := JStrings(resources)], r)
      <==> SomeAction(actions, r.action) && !SomeResource(resources, r.resource)
    ensures Matches(map["Effect" := effect, "Action" := JStrings(actions), "Resource" := JStrings(resources), "Condition" := condition], r)
      <==> SomeAction(actions, r.action) && SomeResource(resources, r.resource) && r.holds(condition)
  {
    StringsOfStrings(actions);
    StringsOfStrings(resources);
  }

  // ---------------------------------------------------------------- the script's read

  /** The script reads the role's policy and falls back to an empty one when the read fails for any reason. */
  function RunScript(live: Document, readFails: bool, added: seq<string>): Document {
    Merge(if readFails then EMPTY_POLICY else live, added)
  }

  /** The script keeps the live policy's denials exactly when its read succeeds, or there are none to lose. */
  lemma DenialsSurviveTheRead(live: Document, readFails: bool, added: seq<string>, r: Request)
    ensures Evaluate(RunScript(live, readFails, added), r) == ExplicitDeny <==>
      !readFails && Evaluate(live, r) == ExplicitDeny
  {
    MergePreservesMeaning(if readFails then EMPTY_POLICY else live, added, r);
  }

  /** After a failed read the new policy allows the added actions and nothing else. */
  lemma FailedReadKeepsNothing(live: Document, added: seq<string>, r: Request)
    ensures Evaluate(RunScript(live, true, added), r) == if SomeAction(added, r.action) then Allowed else ImplicitDeny
  {
    MergePreservesMeaning(EMPTY_POLICY, added, r);
  }

  /** A pattern that ends in a star names every action that begins alike, whatever the letter case. */
  lemma StarNamesAllThatBegin(start: string, action: string)
    requires '*' !in Text.Lower(start) && '?' !in Text.Lower(start)
    ensures NamesAction(start + "*", action) <==> Text.Lower(start) <= Text.Lower(action)
    ensures SomeResource([start], action) && '*' !in start && '?' !in start ==> start == action
    ensures '*' !in start && '?' !in start ==> (SomeResource([start + "*"], action) <==> start <= action)
  {
    assert Text.Lower(start + "*") == Text.Lower(start) + "*";
    Text.PlainThenStar(Text.Lower(start), Text.Lower(action));
    if '*' !in start && '?' !in start {
      Text.PlainThenStar(start, action);
      Text.PlainPatternIsEquality(start, action);
      assert start + "*" in [start + "*"];
    }
  }
}
