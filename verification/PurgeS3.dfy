/**
 * Emptying the object store of a purged organization: listing page by page, deleting in batches,
 * and verifying afterwards.
 *
 * The store fails at any request. A listing is cut into pages of any size, and a failed delete may
 * have removed any part of its batch. Nobody else writes to the buckets in the meantime.
 */
module PurgeS3 {
  import opened Outcomes

  datatype Result<T> = Ok(value: T) | Error

  /** The most keys that one delete request may carry. */
  const BATCH: nat := 1000

  type Buckets = map<string, seq<string>>

  /** The keys in a bucket, in listing order. */
  function Contents(b: Buckets, bucket: string): seq<string> {
    if bucket in b then b[bucket] else []
  }

  function WithPrefix(keys: seq<string>, prefix: string): seq<string> {
    if keys == [] then []
    else if prefix <= keys[0] then [keys[0]] + WithPrefix(keys[1..], prefix)
    else WithPrefix(keys[1..], prefix)
  }

  function Without(keys: seq<string>, gone: set<string>): seq<string> {
    if keys == [] then []
    else if keys[0] in gone then Without(keys[1..], gone)
    else [keys[0]] + Without(keys[1..], gone)
  }

  function Elements(keys: seq<string>): set<string> {
    set k | k in keys
  }

  function Removed(b: Buckets, bucket: string, gone: set<string>): Buckets {
    if bucket in b then b[bucket := Without(b[bucket], gone)] else b
  }

  lemma {:induction false} WithPrefixHas(keys: seq<string>, prefix: string)
    ensures forall k :: k in WithPrefix(keys, prefix) <==> k in keys && prefix <= k
  {
    if keys != [] {
      WithPrefixHas(keys[1..], prefix);
      assert keys == [keys[0]] + keys[1..];
    }
  }

  lemma {:induction false} WithoutHas(keys: seq<string>, gone: set<string>)
    ensures forall k :: k in Without(keys, gone) <==> k in keys && k !in gone
  {
    if keys != [] {
      WithoutHas(keys[1..], gone);
      assert keys == [keys[0]] + keys[1..];
    }
  }

  lemma {:induction false} WithoutTwice(keys: seq<string>, a: set<string>, b: set<string>)
    ensures Without(Without(keys, a), b) == Without(keys, a + b)
  {
    if keys != [] {
      WithoutTwice(keys[1..], a, b);
      if keys[0] !in a {
        assert ([keys[0]] + Without(keys[1..], a))[1..] == Without(keys[1..], a);
      }
    }
  }

  lemma {:induction false} WithoutNothing(keys: seq<string>, gone: set<string>)
    requires forall k | k in gone :: k !in keys
    ensures Without(keys, gone) == keys
  {
    if keys != [] {
      assert keys == [keys[0]] + keys[1..];
      assert keys[0] in keys && forall k | k in keys[1..] :: k in keys;
      WithoutNothing(keys[1..], gone);
    }
  }

  lemma RemovedTwice(b: Buckets, bucket: string, first: set<string>, second: set<string>)
    ensures Removed(Removed(b, bucket, first), bucket, second) == Removed(b, bucket, first + second)
    ensures Removed(b, bucket, {}) == b
  {
    WithoutTwice(Contents(b, bucket), first, second);
    WithoutNothing(Contents(b, bucket), {});
  }

  /** Some of these keys, and nothing else, went from the bucket. */
  ghost predicate SomeRemoved(before: Buckets, after: Buckets, bucket: string, keys: set<string>) {
    exists gone: set<string> :: gone <= keys && after == Removed(before, bucket, gone)
  }

  // ---------------------------------------------------------------- the store

  datatype Listed = Listed(contents: seq<string>, next: Option<nat>)

  class ObjectStore {
    var buckets: Buckets

    constructor (b: Buckets)
      ensures buckets == b
    {
      buckets := b;
    }

    /** One page of a listing; the token says how many matching keys came before. */
    method ListObjects(bucket: string, prefix: string, token: nat) returns (r: Result<Listed>)
      requires token <= |WithPrefix(Contents(buckets, bucket), prefix)|
      ensures r.Ok? ==>
        var all := WithPrefix(Contents(buckets, bucket), prefix);
        var end := token + |r.value.contents|;
        && end <= |all| && r.value.contents == all[token..end]
        && (r.value.next.Some? ==> r.value.next.value == end && token < end < |all|)
        && (r.value.next.None? ==> end == |all|)
    {
      var fails: bool := *;
      if fails {
        return Error;
      }
      var all := WithPrefix(Contents(buckets, bucket), prefix);
      if token == |all| {
        return Ok(Listed([], None));
      }
      var end :| token < end <= |all|;
      r := Ok(Listed(all[token..end], if end < |all| then Some(end) else None));
    }

    method HeadObject(bucket: string, key: string) returns (r: Result<bool>)
      ensures r.Ok? ==> r.value == (key in Contents(buckets, bucket))
    {
      var fails: bool := *;
      r := if fails then Error else Ok(key in Contents(buckets, bucket));
    }

    /** What anyone else may do to the store while the purge is not looking. */
    method OthersWrite()
      modifies this
    {
      buckets := *;
    }

    /** Deletes a batch and reports how many of its keys could not be deleted. */
    method DeleteObjects(bucket: string, batch: seq<string>) returns (r: Result<nat>)
      requires |batch| <= 1000
      modifies this
      ensures SomeRemoved(old(buckets), buckets, bucket, Elements(batch))
      ensures r == Ok(0) ==> buckets == Removed(old(buckets), bucket, Elements(batch))
    {
      var all := Elements(batch);
      var fails: bool := *;
      var partly: bool := *;
      if !fails && !partly {
        buckets := Removed(buckets, bucket, all);
        return Ok(0);
      }
      var gone: set<string> :| gone <= all;
      buckets := Removed(buckets, bucket, gone);
      if fails {
        return Error;
      }
      var errors: nat :| 1 <= errors;
      r := Ok(errors);
    }
  }

  // ---------------------------------------------------------------- what the cleanup must achieve

  datatype Ref = OrgAssets | Default | KnowledgeBase | Questionnaire

  const BUCKET_REFS: seq<Ref> := [OrgAssets, Default, KnowledgeBase, Questionnaire]

  /** What a purge knows: the organization, its configured buckets, and the keys captured from its rows. */
  datatype Target = Target(organizationId: string, bucketOf: map<Ref, string>, captured: map<Ref, seq<string>>) {
    function Prefix(): string { organizationId + "/" }

    /** A missing or empty bucket name means that the bucket is not configured. */
    predicate Configured(ref: Ref) { ref in bucketOf && bucketOf[ref] != "" }

    function Captured(ref: Ref): seq<string> { if ref in captured then captured[ref] else [] }
  }

  /** The keys that have to go from a bucket. */
  function KeySet(t: Target, b: Buckets, ref: Ref): set<string>
    requires t.Configured(ref)
  {
    Elements(t.Captured(ref)) + (set k | k in Contents(b, t.bucketOf[ref]) && t.Prefix() <= k)
  }

  function CleanedOne(t: Target, b: Buckets, ref: Ref): Buckets {
    if t.Configured(ref) then Removed(b, t.bucketOf[ref], KeySet(t, b, ref)) else b
  }

  function Cleaned(t: Target, b: Buckets, refs: seq<Ref>): Buckets {
    if refs == [] then b else CleanedOne(t, Cleaned(t, b, refs[..|refs| - 1]), refs[|refs| - 1])
  }

  function DeletedCount(t: Target, b: Buckets, refs: seq<Ref>): nat {
    if refs == [] then 0
    else
      var before, ref := refs[..|refs| - 1], refs[|refs| - 1];
      DeletedCount(t, b, before) + (if t.Configured(ref) then |KeySet(t, Cleaned(t, b, before), ref)| else 0)
  }

  /** Nothing under the organization's prefix and no captured key is left in this bucket. */
  predicate IsCleanAt(t: Target, b: Buckets, ref: Ref) {
    t.Configured(ref) ==>
      forall k | k in Contents(b, t.bucketOf[ref]) :: !(t.Prefix() <= k) && k !in t.Captured(ref)
  }

  predicate IsClean(t: Target, b: Buckets) {
    forall ref | ref in BUCKET_REFS :: IsCleanAt(t, b, ref)
  }

  /** Two buckets agree if they hold the same keys, wherever an entry is missing. */
  predicate SameContents(a: Buckets, b: Buckets, bucket: string) {
    Contents(a, bucket) == Contents(b, bucket)
  }

  lemma CleanStays(t: Target, b: Buckets, ref: Ref, other: Ref)
    ensures IsCleanAt(t, CleanedOne(t, b, ref), ref)
    ensures IsCleanAt(t, b, other) ==> IsCleanAt(t, CleanedOne(t, b, ref), other)
  {
    if t.Configured(ref) {
      var bucket := t.bucketOf[ref];
      WithoutHas(Contents(b, bucket), KeySet(t, b, ref));
      if t.Configured(other) && t.bucketOf[other] != bucket {
        assert Contents(CleanedOne(t, b, ref), t.bucketOf[other]) == Contents(b, t.bucketOf[other]);
      }
    }
  }

  /** After the cleanup every configured bucket of the list is clean. */
  lemma {:induction false} CleanedIsClean(t: Target, b: Buckets, refs: seq<Ref>, ref: Ref)
    requires ref in refs
    ensures IsCleanAt(t, Cleaned(t, b, refs), ref)
  {
    var before, last := refs[..|refs| - 1], refs[|refs| - 1];
    assert refs == before + [last];
    CleanStays(t, Cleaned(t, b, before), last, ref);
    if ref != last {
      CleanedIsClean(t, b, before, ref);
    }
  }

  /** A configured reference of this bucket asks for the key to go. */
  predicate Asked(t: Target, bucket: string, k: string) {
    exists ref | ref in BUCKET_REFS && t.Configured(ref) ::
      t.bucketOf[ref] == bucket && (t.Prefix() <= k || k in t.Captured(ref))
  }

  /** Between two states of the store no key appeared, and only keys that were asked for are gone. */
  ghost predicate OnlyAskedGone(t: Target, before: Buckets, after: Buckets) {
    forall bucket, k ::
      && (k in Contents(after, bucket) ==> k in Contents(before, bucket))
      && (k in Contents(before, bucket) && !Asked(t, bucket, k) ==> k in Contents(after, bucket))
  }

  /** With a bucket of its own for every reference, the count is the sum of the original key-set sizes. */
  function KeySetSizes(t: Target, b: Buckets, refs: seq<Ref>): nat {
    if refs == [] then 0
    else KeySetSizes(t, b, refs[..|refs| - 1]) +
         (if t.Configured(refs[|refs| - 1]) then |KeySet(t, b, refs[|refs| - 1])| else 0)
  }

  ghost predicate OwnBuckets(t: Target, refs: seq<Ref>) {
    forall i, j | 0 <= i < j < |refs| && t.Configured(refs[i]) && t.Configured(refs[j]) ::
      t.bucketOf[refs[i]] != t.bucketOf[refs[j]]
  }

  lemma {:induction false} CountIsKeySetSizes(t: Target, b: Buckets, refs: seq<Ref>)
    requires OwnBuckets(t, refs)
    ensures DeletedCount(t, b, refs) == KeySetSizes(t, b, refs)
  {
    if refs != [] {
      var n := |refs| - 1;
      CountIsKeySetSizes(t, b, refs[..n]);
      if t.Configured(refs[n]) {
        forall i | 0 <= i < n && t.Configured(refs[i]) ensures t.bucketOf[refs[..n][i]] != t.bucketOf[refs[n]] {}
        OtherBucketStays(t, b, refs[..n], t.bucketOf[refs[n]]);
      }
    }
  }

  lemma {:induction false} OtherBucketStays(t: Target, b: Buckets, refs: seq<Ref>, bucket: string)
    requires forall i | 0 <= i < |refs| && t.Configured(refs[i]) :: t.bucketOf[refs[i]] != bucket
    ensures SameContents(Cleaned(t, b, refs), b, bucket)
  {
    if refs != [] {
      OtherBucketStays(t, b, refs[..|refs| - 1], bucket);
    }
  }

  lemma OnlyKeySetGone(t: Target, before: Buckets, after: Buckets, ref: Ref)
    requires ref in BUCKET_REFS && t.Configured(ref)
    requires SomeRemoved(before, after, t.bucketOf[ref], KeySet(t, before, ref))
    ensures OnlyAskedGone(t, before, after)
  {
    var bucket := t.bucketOf[ref];
    var gone: set<string> :| gone <= KeySet(t, before, ref) && after == Removed(before, bucket, gone);
    WithoutHas(Contents(before, bucket), gone);
    forall other, k
      ensures k in Contents(after, other) ==> k in Contents(before, other)
      ensures k in Contents(before, other) && !Asked(t, other, k) ==> k in Contents(after, other)
    {
      if other == bucket {
        assert k in KeySet(t, before, ref) && k in Contents(before, bucket) ==> Asked(t, bucket, k);
      }
    }
  }

  /** Objects of another organization stay, unless they were captured for this one. */
  lemma OtherOrganizationsStay(t: Target, before: Buckets, after: Buckets, bucket: string, other: string, rest: string)
    requires OnlyAskedGone(t, before, after) && other + "/" + rest in Contents(before, bucket)
    requires other != t.organizationId && '/' !in other && '/' !in t.organizationId
    requires forall ref | ref in t.bucketOf && t.bucketOf[ref] == bucket :: ref in t.captured ==> other + "/" + rest !in t.captured[ref]
    ensures other + "/" + rest in Contents(after, bucket)
  {
    if t.Prefix() <= other + "/" + rest {
      FirstSlash(t.organizationId, other, rest);
    }
  }

  lemma FirstSlash(a: string, b: string, rest: string)
    requires '/' !in a && '/' !in b && a + "/" <= b + "/" + rest
    ensures a == b
  {
    var k := b + "/" + rest;
    assert k[|b|] == '/' && forall i | 0 <= i < |b| :: k[i] == b[i] && b[i] in b;
    assert k[..|a| + 1] == a + "/" && k[|a|] == (a + "/")[|a|] == '/';
    assert forall i | 0 <= i < |a| :: k[i] == (a + "/")[i] == a[i] && a[i] in a;
    assert k[..|a|] == a && k[..|b|] == b;
  }

  /** What a clean store is, in so many words. */
  lemma CleanMeans(t: Target, b: Buckets)
    ensures IsClean(t, b) <==>
      forall ref, k | ref in t.bucketOf && t.bucketOf[ref] != "" && k in Contents(b, t.bucketOf[ref]) ::
        !(t.organizationId + "/" <= k) && (ref in t.captured ==> k !in t.captured[ref])
  {
    forall ref: Ref ensures ref in BUCKET_REFS {
      assert ref == BUCKET_REFS[match ref case OrgAssets => 0 case Default => 1 case KnowledgeBase => 2 case Questionnaire => 3];
    }
    forall ref: Ref
      ensures IsCleanAt(t, b, ref) <==>
        forall k | ref in t.bucketOf && t.bucketOf[ref] != "" && k in Contents(b, t.bucketOf[ref]) ::
          !(t.organizationId + "/" <= k) && (ref in t.captured ==> k !in t.captured[ref])
    {}
  }

  // ---------------------------------------------------------------- the cleanup itself

  predicate NoRepeats(keys: seq<string>) {
    forall i, j | 0 <= i < j < |keys| :: keys[i] != keys[j]
  }

  lemma {:induction false} DistinctCount(keys: seq<string>)
    requires NoRepeats(keys)
    ensures |Elements(keys)| == |keys|
  {
    if keys != [] {
      var n := |keys| - 1;
      DistinctCount(keys[..n]);
      assert Elements(keys) == Elements(keys[..n]) + {keys[n]};
    }
  }

  lemma BatchRemoved(start: Buckets, before: Buckets, after: Buckets, bucket: string,
                     keys: seq<string>, i: nat, batch: seq<string>)
    requires i + |batch| <= |keys| && batch == keys[i..i + |batch|]
    requires before == Removed(start, bucket, Elements(keys[..i]))
    requires SomeRemoved(before, after, bucket, Elements(batch))
    ensures SomeRemoved(start, after, bucket, Elements(keys))
    ensures after == Removed(before, bucket, Elements(batch))
      ==> after == Removed(start, bucket, Elements(keys[..i + |batch|]))
  {
    var done, next := Elements(keys[..i]), Elements(batch);
    assert keys[..i + |batch|] == keys[..i] + batch;
    assert done + next == Elements(keys[..i + |batch|]);
    var gone: set<string> :| gone <= next && after == Removed(before, bucket, gone);
    RemovedTwice(start, bucket, done, gone);
    RemovedTwice(start, bucket, done, next);
    assert done + gone <= Elements(keys);
  }

  /** A Set keeps the first of equal keys, in the order they came. */
  method AddAll(keys: seq<string>, more: seq<string>) returns (all: seq<string>)
    requires NoRepeats(keys)
    ensures NoRepeats(all) && forall k :: k in all <==> k in keys || k in more
  {
    all := keys;
    for i := 0 to |more|
      invariant NoRepeats(all) && forall k :: k in all <==> k in keys || k in more[..i]
    {
      assert more[..i + 1] == more[..i] + [more[i]];
      if more[i] !in all {
        all := all + [more[i]];
      }
    }
    assert more[..|more|] == more;
  }

  class External {
    const store: ObjectStore
    const configured: bool

    constructor (store: ObjectStore, configured: bool)
      ensures this.store == store && this.configured == configured
    {
      this.store, this.configured := store, configured;
    }

    /** The captured keys and every key under the prefix, over all pages of the listing. */
    method CollectKeys(t: Target, ref: Ref) returns (r: Result<seq<string>>)
      requires t.Configured(ref)
      ensures r.Ok? ==> NoRepeats(r.value) && Elements(r.value) == KeySet(t, store.buckets, ref)
    {
      var bucket := t.bucketOf[ref];
      var keys := AddAll([], t.Captured(ref));
      ghost var all := WithPrefix(Contents(store.buckets, bucket), t.Prefix());
      var token: nat := 0;
      var more := true;
      while more
        invariant token <= |all| && NoRepeats(keys)
        invariant forall k :: k in keys <==> k in t.Captured(ref) || k in all[..token]
        invariant !more ==> token == |all|
        decreases more, |all| - token
      {
        var page := store.ListObjects(bucket, t.Prefix(), token);
        if page.Error? {
          return Error;
        }
        ghost var end := token + |page.value.contents|;
        assert all[..end] == all[..token] + page.value.contents;
        keys := AddAll(keys, page.value.contents);
        token := token + |page.value.contents|;
        more := page.value.next.Some?;
      }
      assert all[..token] == all;
      WithPrefixHas(Contents(store.buckets, bucket), t.Prefix());
      r := Ok(keys);
    }

    /** Deletes the keys in consecutive batches; any error stops the purge. */
    method DeleteBatched(bucket: string, keys: seq<string>) returns (r: Result<nat>)
      modifies store
      ensures r.Ok? ==> r.value == |keys|
      ensures r.Ok? ==> store.buckets == Removed(old(store.buckets), bucket, Elements(keys))
      ensures SomeRemoved(old(store.buckets), store.buckets, bucket, Elements(keys))
    {
      ghost var start := store.buckets;
      var deleted, i := 0, 0;
      RemovedTwice(start, bucket, {}, {});
      assert Elements(keys[..0]) == {};
      while i < |keys|
        invariant 0 <= i && deleted == if i <= |keys| then i else |keys|
        invariant store.buckets == Removed(start, bucket, Elements(keys[..deleted]))
      {
        ghost var before := store.buckets;
        var batch := keys[i..if i + BATCH <= |keys| then i + BATCH else |keys|];
        var result := store.DeleteObjects(bucket, batch);
        BatchRemoved(start, before, store.buckets, bucket, keys, i, batch);
        if result != Ok(0) {
          return Error;
        }
        deleted := deleted + |batch|;
        i := i + BATCH;
      }
      assert keys[..|keys|] == keys;
      r := Ok(deleted);
    }

    /**
     * The S3 step of a purge. If it returns, nothing under the prefix and no captured key is left, and
     * the count adds up the key sets; however it ends, no key that was not asked for is gone.
     */
    method CleanupS3(t: Target) returns (r: Result<nat>)
      modifies store
      ensures !configured ==> r == Ok(0) && store.buckets == old(store.buckets)
      ensures configured && r.Ok? ==> store.buckets == Cleaned(t, old(store.buckets), BUCKET_REFS)
      ensures configured && r.Ok? ==> r.value == DeletedCount(t, old(store.buckets), BUCKET_REFS)
      ensures configured && r.Ok? ==> IsClean(t, store.buckets)
      ensures OnlyAskedGone(t, old(store.buckets), store.buckets)
    {
      if !configured {
        return Ok(0);
      }
      ghost var start := store.buckets;
      var totalDeleted, i := 0, 0;
      while i < |BUCKET_REFS|
        invariant 0 <= i <= |BUCKET_REFS|
        invariant store.buckets == Cleaned(t, start, BUCKET_REFS[..i])
        invariant totalDeleted == DeletedCount(t, start, BUCKET_REFS[..i])
        invariant OnlyAskedGone(t, start, store.buckets)
      {
        var ref := BUCKET_REFS[i];
        assert BUCKET_REFS[..i + 1][..i] == BUCKET_REFS[..i];
        i := i + 1;
        if !t.Configured(ref) {
          continue;
        }
        var keys := CollectKeys(t, ref);
        if keys.Error? {
          return Error;
        }
        ghost var before := store.buckets;
        DistinctCount(keys.value);
        if |keys.value| == 0 {
          RemovedTwice(before, t.bucketOf[ref], {}, {});
          assert KeySet(t, before, ref) == {};
          continue;
        }
        assert keys.value[0] in KeySet(t, before, ref);
        var deleted := DeleteBatched(t.bucketOf[ref], keys.value);
        OnlyKeySetGone(t, before, store.buckets, ref);
        if deleted.Error? {
          return Error;
        }
        totalDeleted := totalDeleted + deleted.value;
      }
      assert BUCKET_REFS[..i] == BUCKET_REFS;
      forall ref | ref in BUCKET_REFS ensures IsCleanAt(t, store.buckets, ref) {
        CleanedIsClean(t, start, BUCKET_REFS, ref);
      }
      r := Ok(totalDeleted);
    }

    /** True exactly if the store is clean; without a client there is nothing to verify. */
    method VerifyS3Clean(t: Target) returns (r: Result<bool>)
      ensures !configured ==> r == Ok(true)
      ensures configured && r.Ok? ==> r.value == IsClean(t, store.buckets)
    {
      if !configured {
        return Ok(true);
      }
      for i := 0 to |BUCKET_REFS|
        invariant forall ref | ref in BUCKET_REFS[..i] :: IsCleanAt(t, store.buckets, ref)
      {
        var ref := BUCKET_REFS[i];
        if !t.Configured(ref) {
          continue;
        }
        var bucket := t.bucketOf[ref];
        WithPrefixHas(Contents(store.buckets, bucket), t.Prefix());
        var remaining := store.ListObjects(bucket, t.Prefix(), 0);
        if remaining.Error? {
          return Error;
        }
        if |remaining.value.contents| > 0 {
          assert remaining.value.contents[0] in WithPrefix(Contents(store.buckets, bucket), t.Prefix());
          assert ref in BUCKET_REFS && !IsCleanAt(t, store.buckets, ref);
          return Ok(false);
        }
        var keys := t.Captured(ref);
        for j := 0 to |keys|
          invariant forall k | k in keys[..j] :: k !in Contents(store.buckets, bucket)
        {
          if t.Prefix() <= keys[j] {
            continue;
          }
          var found := store.HeadObject(bucket, keys[j]);
          if found.Error? {
            return Error;
          }
          if found.value {
            assert ref in BUCKET_REFS && keys[j] in t.Captured(ref) && !IsCleanAt(t, store.buckets, ref);
            return Ok(false);
          }
        }
      }
      assert BUCKET_REFS[..|BUCKET_REFS|] == BUCKET_REFS;
      r := Ok(true);
    }
  }
}
