/**
 * Which IAM actions a generated remediation script may grant, and what running such a script
 * can therefore add to a policy.
 *
 * The table of exact blocked actions is a parameter: everything here holds for every table.
 */
module Denylist {
  import opened Outcomes
  import Text
  import PolicyMerge

  /** Verbs that are never granted, matched at the start of the lower-cased action name. */
  const BLOCKED_VERBS: seq<string> := [
    "authorize", "delete", "disable", "stop", "remove", "terminate", "deregister", "unsubscribe",
    "schedule", "purge", "close", "cancel", "leave", "reboot", "suspend", "deactivate"]

  predicate IsServiceChar(c: char) {
    'A' <= c <= 'Z' || 'a' <= c <= 'z' || '0' <= c <= '9' || c == '-'
  }

  predicate IsActionChar(c: char) {
    'A' <= c <= 'Z' || 'a' <= c <= 'z' || '0' <= c <= '9' || c == '*'
  }

  function ServicePart(token: string): string
    requires ':' in token
  {
    token[..Text.IndexOf(token, ':', 0)]
  }

  function ActionPart(token: string): string
    requires ':' in token
  {
    token[Text.IndexOf(token, ':', 0) + 1..]
  }

  predicate AllService(s: string) {
    forall c | c in s :: IsServiceChar(c)
  }

  predicate AllAction(s: string) {
    forall c | c in s :: IsActionChar(c)
  }

  /** A well-formed `service:Action` token. */
  predicate IsToken(token: string) {
    && ':' in token
    && ServicePart(token) != [] && AllService(ServicePart(token))
    && ActionPart(token) != [] && AllAction(ActionPart(token))
  }

  predicate IsPutAcl(action: string) {
    |action| >= 6 && Text.HasPrefix(action, "put") && Text.HasSuffix(action, "acl")
  }

  predicate HasBlockedVerb(action: string) {
    exists verb | verb in BLOCKED_VERBS :: Text.HasPrefix(action, verb)
  }

  predicate InTable(table: set<string>, normalized: string) {
    exists entry | entry in table :: Text.Lower(entry) == normalized
  }

  /** The rules that look at the lower-cased service and action of a well-formed token. */
  predicate IsBlockedName(service: string, action: string) {
    || '*' in action
    || (service == "guardduty" && Text.HasPrefix(action, "update"))
    || HasBlockedVerb(action)
    || IsPutAcl(action)
    || (service == "iam" && !Text.HasPrefix(action, "get") && !Text.HasPrefix(action, "list"))
    || (service == "sts" && action != "getcalleridentity")
  }

  predicate IsBlocked(table: set<string>, permission: string) {
    var trimmed := Text.Trim(permission);
    if !IsToken(trimmed) then true
    else
      var normalized := Text.Lower(trimmed);
      LowerKeepsColons(trimmed);
      InTable(table, normalized) || IsBlockedName(ServicePart(normalized), ActionPart(normalized))
  }

  // ---------------------------------------------------------------- letter case does not matter

  lemma LowerChar(c: char)
    ensures Text.IsSpace(Text.LowerChar(c)) <==> Text.IsSpace(c)
    ensures IsServiceChar(Text.LowerChar(c)) <==> IsServiceChar(c)
    ensures IsActionChar(Text.LowerChar(c)) <==> IsActionChar(c)
    ensures Text.LowerChar(c) == ':' <==> c == ':'
    ensures Text.LowerChar(c) == '*' <==> c == '*'
    ensures Text.LowerChar(c) == '?' <==> c == '?'
    ensures Text.LowerChar(Text.LowerChar(c)) == Text.LowerChar(c)
  {}

  lemma LowerKeepsColons(s: string)
    ensures ':' in s <==> ':' in Text.Lower(s)
    ensures '*' in s <==> '*' in Text.Lower(s)
    ensures '?' in s <==> '?' in Text.Lower(s)
  {
    forall c: char | c in s && (c == ':' || c == '*' || c == '?') ensures c in Text.Lower(s) {
      var i :| 0 <= i < |s| && s[i] == c;
      LowerChar(c);
      assert Text.Lower(s)[i] == c;
    }
    forall c: char | c in Text.Lower(s) && (c == ':' || c == '*' || c == '?') ensures c in s {
      var i :| 0 <= i < |s| && Text.Lower(s)[i] == c;
      LowerChar(s[i]);
    }
  }

  /** Two strings that differ in letter case only. */
  predicate SameUpToCase(a: string, b: string) {
    Text.Lower(a) == Text.Lower(b)
  }

  lemma SameAt(a: string, b: string, i: nat)
    requires SameUpToCase(a, b) && i < |a|
    ensures |a| == |b| && Text.LowerChar(a[i]) == Text.LowerChar(b[i])
  {
    assert |Text.Lower(a)| == |a| && |Text.Lower(b)| == |b|;
    assert Text.Lower(a)[i] == Text.LowerChar(a[i]) && Text.Lower(b)[i] == Text.LowerChar(b[i]);
  }

  lemma SameSlice(a: string, b: string, from: nat, to: nat)
    requires SameUpToCase(a, b) && from <= to <= |a|
    ensures |a| == |b| && SameUpToCase(a[from..to], b[from..to])
  {
    assert |Text.Lower(a)| == |a| && |Text.Lower(b)| == |b|;
    assert Text.Lower(a[from..to]) == Text.Lower(a)[from..to];
    assert Text.Lower(b[from..to]) == Text.Lower(b)[from..to];
  }

  lemma LowerTwice(s: string)
    ensures SameUpToCase(s, Text.Lower(s))
  {
    forall i | 0 <= i < |s| ensures Text.LowerChar(Text.LowerChar(s[i])) == Text.LowerChar(s[i]) {
      LowerChar(s[i]);
    }
    assert Text.Lower(Text.Lower(s)) == Text.Lower(s);
  }

  lemma {:induction false} SameTrimLeft(a: string, b: string)
    requires SameUpToCase(a, b)
    ensures SameUpToCase(Text.TrimLeft(a), Text.TrimLeft(b))
    decreases |a|
  {
    if a != [] {
      SameAt(a, b, 0);
      LowerChar(a[0]);
      LowerChar(b[0]);
      SameSlice(a, b, 1, |a|);
      if Text.IsSpace(a[0]) {
        SameTrimLeft(a[1..], b[1..]);
      }
    } else {
      assert |Text.Lower(b)| == |b|;
    }
  }

  lemma {:induction false} SameTrimRight(a: string, b: string)
    requires SameUpToCase(a, b)
    ensures SameUpToCase(Text.TrimRight(a), Text.TrimRight(b))
    decreases |a|
  {
    if a != [] {
      SameAt(a, b, |a| - 1);
      LowerChar(a[|a| - 1]);
      LowerChar(b[|a| - 1]);
      SameSlice(a, b, 0, |a| - 1);
      if Text.IsSpace(a[|a| - 1]) {
        SameTrimRight(a[..|a| - 1], b[..|a| - 1]);
      }
    } else {
      assert |Text.Lower(b)| == |b|;
    }
  }

  lemma {:induction false} SameColon(a: string, b: string, from: nat)
    requires SameUpToCase(a, b)
    ensures Text.IndexOf(a, ':', from) == Text.IndexOf(b, ':', from)
    decreases |a| - from
  {
    assert |Text.Lower(a)| == |a| && |Text.Lower(b)| == |b|;
    if from < |a| {
      SameAt(a, b, from);
      LowerChar(a[from]);
      LowerChar(b[from]);
      SameColon(a, b, from + 1);
    }
  }

  lemma SameChars(a: string, b: string)
    requires SameUpToCase(a, b)
    ensures AllService(a) ==> AllService(b)
    ensures AllAction(a) ==> AllAction(b)
  {
    assert |Text.Lower(a)| == |a| && |Text.Lower(b)| == |b|;
    forall c | c in b ensures exists d :: d in a && (IsServiceChar(c) <==> IsServiceChar(d)) && (IsActionChar(c) <==> IsActionChar(d)) {
      var i :| 0 <= i < |b| && b[i] == c;
      SameAt(a, b, i);
      LowerChar(a[i]);
      LowerChar(b[i]);
      assert a[i] in a;
    }
  }

  lemma SameParts(a: string, b: string)
    requires SameUpToCase(a, b) && ':' in a && ':' in b
    ensures SameUpToCase(ServicePart(a), ServicePart(b)) && |ServicePart(a)| == |ServicePart(b)|
    ensures SameUpToCase(ActionPart(a), ActionPart(b)) && |ActionPart(a)| == |ActionPart(b)|
  {
    SameColon(a, b, 0);
    SamePartsAt(a, b, Text.IndexOf(a, ':', 0));
  }

  lemma SamePartsAt(a: string, b: string, i: nat)
    requires SameUpToCase(a, b) && i < |a|
    ensures |a| == |b| && SameUpToCase(a[..i], b[..i]) && SameUpToCase(a[i + 1..], b[i + 1..])
  {
    SameSlice(a, b, 0, i);
    SameSlice(a, b, i + 1, |a|);
    assert a[i + 1..|a|] == a[i + 1..] && b[i + 1..|b|] == b[i + 1..];
    assert a[0..i] == a[..i] && b[0..i] == b[..i];
  }

  lemma SameToken(a: string, b: string)
    requires SameUpToCase(a, b)
    ensures IsToken(a) <==> IsToken(b)
  {
    LowerKeepsColons(a);
    LowerKeepsColons(b);
    if ':' in a {
      SameParts(a, b);
      SameChars(ServicePart(a), ServicePart(b));
      SameChars(ServicePart(b), ServicePart(a));
      SameChars(ActionPart(a), ActionPart(b));
      SameChars(ActionPart(b), ActionPart(a));
    }
  }

  /** The denylist looks at an action name without regard to letter case. */
  lemma CaseDoesNotMatter(table: set<string>, a: string, b: string)
    requires SameUpToCase(a, b)
    ensures IsBlocked(table, a) <==> IsBlocked(table, b)
  {
    SameTrimLeft(a, b);
    SameTrimRight(Text.TrimLeft(a), Text.TrimLeft(b));
    SameToken(Text.Trim(a), Text.Trim(b));
  }

  // ---------------------------------------------------------------- what passes the denylist

  lemma {:induction false} TrimLeftDropsSpaces(s: string)
    ensures forall c | c in s :: Text.IsSpace(c) || c in Text.TrimLeft(s)
    decreases |s|
  {
    if s != [] && Text.IsSpace(s[0]) {
      TrimLeftDropsSpaces(s[1..]);
      assert s == [s[0]] + s[1..];
    }
  }

  lemma {:induction false} TrimRightDropsSpaces(s: string)
    ensures forall c | c in s :: Text.IsSpace(c) || c in Text.TrimRight(s)
    decreases |s|
  {
    if s != [] && Text.IsSpace(s[|s| - 1]) {
      TrimRightDropsSpaces(s[..|s| - 1]);
      assert s == s[..|s| - 1] + [s[|s| - 1]];
    }
  }

  lemma TokenChars(token: string)
    requires IsToken(token)
    ensures '?' !in token
    ensures '*' in token ==> '*' in ActionPart(token)
  {
    var service, action := ServicePart(token), ActionPart(token);
    assert token == service + [':'] + action;
    assert '?' !in service && '*' !in service && '?' !in action;
  }

  lemma SurvivorIsPlain(table: set<string>, permission: string)
    requires !IsBlocked(table, permission)
    ensures '*' !in Text.Lower(permission) && '?' !in Text.Lower(permission)
  {
    var trimmed := Text.Trim(permission);
    LowerTwice(trimmed);
    SameToken(trimmed, Text.Lower(trimmed));
    TokenChars(Text.Lower(trimmed));
    LowerKeepsColons(trimmed);
    TrimLeftDropsSpaces(permission);
    TrimRightDropsSpaces(Text.TrimLeft(permission));
    LowerKeepsColons(permission);
  }

  /** A token that passes holds no wildcard, so as a pattern it names exactly its own action. */
  lemma SurvivorNamesOneAction(table: set<string>, permission: string, action: string)
    requires !IsBlocked(table, permission)
    ensures PolicyMerge.NamesAction(permission, action) <==> SameUpToCase(permission, action)
  {
    SurvivorIsPlain(table, permission);
    Text.PlainPatternIsEquality(Text.Lower(permission), Text.Lower(action));
  }

  predicate AllSpaces(s: string) {
    forall i | 0 <= i < |s| :: Text.IsSpace(s[i])
  }

  lemma {:induction false} TrimLeftPadding(left: string, s: string)
    requires AllSpaces(left)
    ensures Text.TrimLeft(left + s) == Text.TrimLeft(s)
  {
    if left == [] {
      assert left + s == s;
    } else {
      TrimLeftPadding(left[1..], s);
      assert (left + s)[1..] == left[1..] + s;
    }
  }

  lemma {:induction false} TrimRightPadding(s: string, right: string)
    requires AllSpaces(right)
    ensures Text.TrimRight(s + right) == Text.TrimRight(s)
  {
    if right == [] {
      assert s + right == s;
    } else {
      var n := |right| - 1;
      TrimRightPadding(s, right[..n]);
      assert (s + right)[..|s + right| - 1] == s + right[..n];
      assert (s + right)[|s + right| - 1] == right[n];
    }
  }

  lemma {:induction false} TrimPaddedRight(s: string, right: string)
    requires AllSpaces(right)
    ensures Text.Trim(s + right) == Text.Trim(s)
    decreases |s|
  {
    if s == [] {
      TrimLeftPadding(right, []);
      assert s + right == right && right + [] == right;
    } else if Text.IsSpace(s[0]) {
      TrimPaddedRight(s[1..], right);
      assert (s + right)[1..] == s[1..] + right;
    } else {
      TrimRightPadding(s, right);
    }
  }

  /** White space around a token is trimmed away, so padding alone does not send a token to review. */
  lemma PaddingIsIgnored(table: set<string>, left: string, permission: string, right: string)
    requires AllSpaces(left) && AllSpaces(right)
    ensures IsBlocked(table, left + permission + right) <==> IsBlocked(table, permission)
  {
    TrimPaddedRight(left + permission, right);
    TrimLeftPadding(left, permission);
  }

  // ---------------------------------------------------------------- splitting a request

  predicate Grantable(table: set<string>, permissions: seq<string>, p: string) {
    p in permissions && !IsBlocked(table, p)
  }

  /** Sorts the distinct permissions into a grantable and a manual-review list. */
  method SplitBlockedRemediationActions(table: set<string>, permissions: seq<string>)
    returns (allowed: seq<string>, blocked: seq<string>)
    ensures Text.Sorted(allowed) && forall p :: p in allowed <==> Grantable(table, permissions, p)
    ensures Text.Sorted(blocked) && forall p :: p in blocked <==> p in permissions && IsBlocked(table, p)
  {
    allowed, blocked := [], [];
    for i := 0 to |permissions|
      invariant forall p :: p in allowed <==> p in permissions[..i] && !IsBlocked(table, p)
      invariant forall p :: p in blocked <==> p in permissions[..i] && IsBlocked(table, p)
    {
      var permission := permissions[i];
      assert permissions[..i + 1] == permissions[..i] + [permission];
      if permission !in permissions[..i] {
        if IsBlocked(table, permission) {
          blocked := blocked + [permission];
        } else {
          allowed := allowed + [permission];
        }
      }
    }
    assert permissions[..|permissions|] == permissions;
    Text.UniqueSorts(allowed);
    Text.UniqueSorts(blocked);
    allowed, blocked := Text.Unique(allowed), Text.Unique(blocked);
  }

  /** The sorted grantable list, as a function of the request. */
  function Allowed(table: set<string>, permissions: seq<string>): seq<string> {
    if permissions == [] then []
    else
      var rest, last := Allowed(table, permissions[..|permissions| - 1]), permissions[|permissions| - 1];
      if IsBlocked(table, last) then rest else Text.Insert(last, rest)
  }

  lemma {:induction false} AllowedIsGrantable(table: set<string>, permissions: seq<string>)
    ensures Text.Sorted(Allowed(table, permissions))
    ensures forall p :: p in Allowed(table, permissions) <==> Grantable(table, permissions, p)
  {
    if permissions != [] {
      var n := |permissions| - 1;
      AllowedIsGrantable(table, permissions[..n]);
      Text.InsertSorts(permissions[n], Allowed(table, permissions[..n]));
      assert permissions == permissions[..n] + [permissions[n]];
    }
  }

  /** The grantable list of the split is that function. */
  lemma SplitIsAllowed(table: set<string>, permissions: seq<string>, allowed: seq<string>)
    requires Text.Sorted(allowed) && forall p :: p in allowed <==> Grantable(table, permissions, p)
    ensures allowed == Allowed(table, permissions)
  {
    AllowedIsGrantable(table, permissions);
    Text.SortedIsCanonical(allowed, Allowed(table, permissions));
  }

  // ---------------------------------------------------------------- running a grant script

  /** With nothing to grant the script is a comment and does nothing. */
  function RunGrantScript(table: set<string>, permissions: seq<string>, doc: PolicyMerge.Document): PolicyMerge.Document {
    var allowed := Allowed(table, permissions);
    if allowed == [] then doc else PolicyMerge.Merge(doc, allowed)
  }

  /**
   * Only grantable actions are ever added: a request that is allowed after the script but not before
   * names, up to letter case, one of the requested permissions that the denylist passes.
   */
  lemma OnlyGrantableActionsAreAdded(
      table: set<string>, permissions: seq<string>, doc: PolicyMerge.Document, r: PolicyMerge.Request)
    requires PolicyMerge.Evaluate(RunGrantScript(table, permissions, doc), r) == PolicyMerge.Decision.Allowed
    requires PolicyMerge.Evaluate(doc, r) != PolicyMerge.Decision.Allowed
    ensures !IsBlocked(table, r.action)
    ensures exists p :: Grantable(table, permissions, p) && SameUpToCase(p, r.action)
  {
    var allowed := Allowed(table, permissions);
    AllowedIsGrantable(table, permissions);
    PolicyMerge.MergePreservesMeaning(doc, allowed, r);
    var p :| p in allowed && PolicyMerge.NamesAction(p, r.action);
    SurvivorNamesOneAction(table, p, r.action);
    CaseDoesNotMatter(table, p, r.action);
  }

  /** ... and every grantable permission is: the script allows it wherever no Deny stands against it. */
  lemma GrantableActionsAreAdded(
      table: set<string>, permissions: seq<string>, doc: PolicyMerge.Document, r: PolicyMerge.Request)
    requires Grantable(table, permissions, r.action)
    ensures PolicyMerge.Evaluate(RunGrantScript(table, permissions, doc), r) ==
      if PolicyMerge.Evaluate(doc, r) == PolicyMerge.Decision.ExplicitDeny then PolicyMerge.Decision.ExplicitDeny
      else PolicyMerge.Decision.Allowed
  {
    AllowedIsGrantable(table, permissions);
    PolicyMerge.MergePreservesMeaning(doc, Allowed(table, permissions), r);
    SurvivorNamesOneAction(table, r.action, r.action);
  }

  // ---------------------------------------------------------------- which actions these are

  lemma PartsOf(token: string, service: string, name: string)
    requires token == service + ":" + name && ':' !in service
    ensures ':' in token && ServicePart(token) == service && ActionPart(token) == name
  {
    assert token[|service|] == ':' && forall k | 0 <= k < |service| :: token[k] == service[k] && service[k] in service;
    assert token[..|service|] == service && token[|service| + 1..] == name;
  }

  lemma JoinParts(token: string)
    requires ':' in token
    ensures token == ServicePart(token) + ":" + ActionPart(token) && ':' !in ServicePart(token)
  {}

  lemma LowerHasNoCapitals(s: string)
    ensures forall c | c in Text.Lower(s) :: !('A' <= c <= 'Z')
  {
    forall c | c in Text.Lower(s) ensures !('A' <= c <= 'Z') {
      var i :| 0 <= i < |s| && Text.Lower(s)[i] == c;
      assert c == Text.LowerChar(s[i]);
    }
  }

  /**
   * What a script can add, in so many words: a request that is allowed after it but not before names a
   * plain service and action, and none of those that are reserved for a manual review. White space
   * around a name, which no real request has, is looked past.
   */
  lemma AddedActionsAreHarmless(
      table: set<string>, permissions: seq<string>, doc: PolicyMerge.Document, r: PolicyMerge.Request)
    returns (service: string, name: string)
    requires PolicyMerge.Evaluate(RunGrantScript(table, permissions, doc), r) == PolicyMerge.Decision.Allowed
    requires PolicyMerge.Evaluate(doc, r) != PolicyMerge.Decision.Allowed
    ensures Text.Lower(Text.Trim(r.action)) == service + ":" + name
    ensures service != "" && forall c | c in service :: 'a' <= c <= 'z' || '0' <= c <= '9' || c == '-'
    ensures name != "" && forall c | c in name :: 'a' <= c <= 'z' || '0' <= c <= '9'
    ensures forall entry | entry in table :: Text.Lower(entry) != service + ":" + name
    ensures forall verb | verb in ["authorize", "delete", "disable", "stop", "remove", "terminate", "deregister",
                                   "unsubscribe", "schedule", "purge", "close", "cancel", "leave", "reboot",
                                   "suspend", "deactivate"] :: !(verb <= name)
    ensures !("put" <= name && |name| >= 6 && name[|name| - 3..] == "acl")
    ensures service == "guardduty" ==> !("update" <= name)
    ensures service == "iam" ==> "get" <= name || "list" <= name
    ensures service == "sts" ==> name == "getcalleridentity"
  {
    OnlyGrantableActionsAreAdded(table, permissions, doc, r);
    var trimmed := Text.Trim(r.action);
    var token := Text.Lower(trimmed);
    LowerKeepsColons(trimmed);
    LowerTwice(trimmed);
    SameToken(trimmed, token);
    JoinParts(token);
    service, name := ServicePart(token), ActionPart(token);
    LowerHasNoCapitals(trimmed);
    NoCapitals(token, service, name);
    NoVerb(name);
  }

  lemma NoCapitals(token: string, service: string, name: string)
    requires token == service + ":" + name && forall c | c in token :: !('A' <= c <= 'Z')
    ensures forall c | c in service || c in name :: !('A' <= c <= 'Z')
  {
    assert forall c | c in service || c in name :: c in token;
  }

  lemma NoVerb(name: string)
    ensures HasBlockedVerb(name) <==>
      exists verb | verb in ["authorize", "delete", "disable", "stop", "remove", "terminate", "deregister",
                             "unsubscribe", "schedule", "purge", "close", "cancel", "leave", "reboot",
                             "suspend", "deactivate"] :: verb <= name
  {}

  /** Conversely, every other well-formed permission that is asked for is allowed, unless explicitly denied. */
  lemma HarmlessActionsAreAdded(
      table: set<string>, permissions: seq<string>, doc: PolicyMerge.Document, r: PolicyMerge.Request,
      service: string, name: string)
    requires r.action in permissions && Text.Lower(r.action) == service + ":" + name
    requires service != "" && forall c | c in service :: 'a' <= c <= 'z' || '0' <= c <= '9' || c == '-'
    requires name != "" && forall c | c in name :: 'a' <= c <= 'z' || '0' <= c <= '9'
    requires forall entry | entry in table :: Text.Lower(entry) != service + ":" + name
    requires forall verb | verb in ["authorize", "delete", "disable", "stop", "remove", "terminate", "deregister",
                                    "unsubscribe", "schedule", "purge", "close", "cancel", "leave", "reboot",
                                    "suspend", "deactivate"] :: !(verb <= name)
    requires !("put" <= name && |name| >= 6 && name[|name| - 3..] == "acl")
    requires service == "guardduty" ==> !("update" <= name)
    requires service == "iam" ==> "get" <= name || "list" <= name
    requires service == "sts" ==> name == "getcalleridentity"
    ensures PolicyMerge.Evaluate(RunGrantScript(table, permissions, doc), r) ==
      if PolicyMerge.Evaluate(doc, r) == PolicyMerge.Decision.ExplicitDeny then PolicyMerge.Decision.ExplicitDeny
      else PolicyMerge.Decision.Allowed
  {
    var token := Text.Lower(r.action);
    PartsOf(token, service, name);
    LowerTwice(r.action);
    assert IsToken(token);
    SameToken(r.action, token);
    NothingToTrim(r.action);
    NoVerb(name);
    LowerKeepsColons(r.action);
    assert !IsBlocked(table, r.action);
    GrantableActionsAreAdded(table, permissions, doc, r);
  }

  /** A token neither starts nor ends with white space. */
  lemma NothingToTrim(token: string)
    requires IsToken(token)
    ensures Text.Trim(token) == token
  {
    JoinParts(token);
    var service, name := ServicePart(token), ActionPart(token);
    assert service[0] in service && name[|name| - 1] in name;
    assert token[0] == service[0] && token[|token| - 1] == name[|name| - 1];
    assert IsServiceChar(token[0]) && IsActionChar(token[|token| - 1]);
  }

  /** With nothing to grant the document stays as it is, down to its order and its version. */
  lemma NothingToGrant(table: set<string>, permissions: seq<string>, doc: PolicyMerge.Document)
    requires forall p | p in permissions :: IsBlocked(table, p)
    ensures RunGrantScript(table, permissions, doc) == doc
  {
    AllowedIsGrantable(table, permissions);
    Text.EmptyOrMember(Allowed(table, permissions));
  }
}
