/**
 * The order of a purge: check, record that it begins, clean up outside, verify, delete the row, and only
 * then look for leftovers. Every step can fail, and a failed write may still have taken effect.
 */
module Purge {
  import opened Outcomes
  import opened PurgeS3

  const HOUR: nat := 3_600_000

  datatype Member = Member(userId: string, organizationId: string, deactivated: bool, createdAt: int)

  datatype Status = Initiated | Failed | Completed

  /** A record is held by one organization and speaks about another. */
  datatype AuditRecord = AuditRecord(organizationId: string, entityId: string, status: Status)

  datatype Organization = Organization(slug: string, s3Keys: map<Ref, seq<string>>)

  datatype Outcome =
    | NotFound
    | ReadFailed
    | BadRequest
    | Unprocessable
    | AuditFailed
    | StepFailed
    | CountsFailed
    | Success(objectsDeleted: nat, verified: bool, leftoverRows: map<string, nat>)

  const TABLES: seq<string> := ["apiKey", "member", "control", "policy", "task", "auditLog", "device",
                                "integrationConnection", "vendor", "risk"]

  // ---------------------------------------------------------------- where the trail is kept

  /** Active, in another organization, and there for at least an hour. */
  predicate MayHoldTheRecord(m: Member, adminUserId: string, excludeOrgId: string, now: int) {
    && m.userId == adminUserId && m.organizationId != excludeOrgId
    && !m.deactivated && m.createdAt < now - HOUR
  }

  /** The oldest membership that may hold the record. */
  function FindAdminMembershipOrgId(members: seq<Member>, adminUserId: string, excludeOrgId: string, now: int): (r: Option<Member>)
    ensures r.None? ==> forall m | m in members :: !MayHoldTheRecord(m, adminUserId, excludeOrgId, now)
    ensures r.Some? ==> r.value in members && MayHoldTheRecord(r.value, adminUserId, excludeOrgId, now)
    ensures r.Some? ==> forall m | m in members && MayHoldTheRecord(m, adminUserId, excludeOrgId, now) ::
                          r.value.createdAt <= m.createdAt
  {
    if members == [] then None
    else
      var rest := FindAdminMembershipOrgId(members[1..], adminUserId, excludeOrgId, now);
      if MayHoldTheRecord(members[0], adminUserId, excludeOrgId, now)
         && (rest.None? || members[0].createdAt <= rest.value.createdAt)
      then Some(members[0]) else rest
  }

  /** Deleting an organization takes the records it holds along. */
  function Surviving(audit: seq<AuditRecord>, deleted: string): seq<AuditRecord> {
    if audit == [] then []
    else if audit[0].organizationId == deleted then Surviving(audit[1..], deleted)
    else [audit[0]] + Surviving(audit[1..], deleted)
  }

  lemma {:induction false} RecordElsewhereSurvives(audit: seq<AuditRecord>, record: AuditRecord, deleted: string)
    requires record.organizationId != deleted
    ensures Surviving(audit + [record], deleted) == Surviving(audit, deleted) + [record]
  {
    if audit == [] {
      assert Surviving([record], deleted) == [record] + Surviving([record][1..], deleted);
    } else {
      assert (audit + [record])[1..] == audit[1..] + [record];
      RecordElsewhereSurvives(audit[1..], record, deleted);
    }
  }

  /** Exactly the other organizations' records survive, in their order. */
  lemma {:induction false} SurvivingAre(audit: seq<AuditRecord>, deleted: string)
    ensures forall record :: record in Surviving(audit, deleted) <==> record in audit && record.organizationId != deleted
  {
    if audit != [] {
      SurvivingAre(audit[1..], deleted);
      assert audit == [audit[0]] + audit[1..];
    }
  }

  // ---------------------------------------------------------------- the database

  type Rows = map<(string, string), nat>

  function RowsIn(rows: Rows, table: string, organizationId: string): nat {
    if (table, organizationId) in rows then rows[(table, organizationId)] else 0
  }

  /** The tables that still hold rows of an organization, with their number. */
  function Leftover(rows: Rows, tables: seq<string>, organizationId: string): map<string, nat> {
    map table | table in tables && RowsIn(rows, table, organizationId) > 0 :: RowsIn(rows, table, organizationId)
  }

  /** A verified deletion has left no row in any of these ten tables. */
  lemma NothingLeftMeans(rows: Rows, organizationId: string)
    ensures Leftover(rows, TABLES, organizationId) == map[] <==>
      forall table | table in ["apiKey", "member", "control", "policy", "task", "auditLog", "device",
                               "integrationConnection", "vendor", "risk"] ::
        (table, organizationId) in rows ==> rows[(table, organizationId)] == 0
    ensures forall table | table in Leftover(rows, TABLES, organizationId) ::
              (table, organizationId) in rows && Leftover(rows, TABLES, organizationId)[table] == rows[(table, organizationId)] > 0
  {
    var left := Leftover(rows, TABLES, organizationId);
    forall table | table in TABLES && (table, organizationId) in rows && rows[(table, organizationId)] != 0 ensures table in left {}
  }

  class Database {
    var orgs: map<string, Organization>
    var audit: seq<AuditRecord>
    var rows: Rows
    /** How many deletions took effect although their caller saw an error. */
    ghost var lostAnswers: nat
    /** Every record that was to be written, whether or not it was. */
    ghost var attempted: seq<AuditRecord>

    constructor (orgs: map<string, Organization>, audit: seq<AuditRecord>, rows: Rows)
      ensures this.orgs == orgs && this.audit == audit && this.rows == rows && lostAnswers == 0 && attempted == []
    {
      this.orgs, this.audit, this.rows, lostAnswers, attempted := orgs, audit, rows, 0, [];
    }

    method WriteAudit(record: AuditRecord) returns (ok: bool)
      modifies `audit, `attempted
      ensures attempted == old(attempted) + [record]
      ensures audit == old(audit) || audit == old(audit) + [record]
      ensures ok ==> audit == old(audit) + [record]
    {
      ok := *;
      var written: bool := *;
      attempted := attempted + [record];
      if ok || written {
        audit := audit + [record];
      }
    }

    /** The cascade removes the records the organization holds; which of its other rows go is up to the schema. */
    method DeleteOrganization(id: string) returns (ok: bool)
      modifies this
      ensures attempted == old(attempted)
      ensures ok ==> id in old(orgs) && lostAnswers == old(lostAnswers)
      ensures ok || lostAnswers > old(lostAnswers) ==> orgs == old(orgs) - {id} && audit == Surviving(old(audit), id)
      ensures !ok && lostAnswers == old(lostAnswers) ==> orgs == old(orgs) && audit == old(audit) && rows == old(rows)
      ensures lostAnswers >= old(lostAnswers)
      ensures forall table, other | other != id :: RowsIn(rows, table, other) == RowsIn(old(rows), table, other)
    {
      var takesEffect: bool := *;
      if id !in orgs || !takesEffect {
        return false;
      }
      var left: Rows := *;
      orgs, audit := orgs - {id}, Surviving(audit, id);
      rows := map key | key in rows.Keys + left.Keys && (key.1 == id ==> key in left) && (key.1 != id ==> key in rows)
        :: if key.1 == id then left[key] else rows[key];
      ok := *;
      if !ok {
        lostAnswers := lostAnswers + 1;
      }
    }

    method Count(table: string, organizationId: string) returns (r: PurgeS3.Result<nat>)
      ensures r.Ok? ==> r.value == RowsIn(rows, table, organizationId)
    {
      var fails: bool := *;
      r := if fails then Error else Ok(RowsIn(rows, table, organizationId));
    }
  }

  // ---------------------------------------------------------------- the other outside systems

  datatype Step = Stripe | VectorStore

  /** A cleanup that has succeeded, and for which organization. */
  datatype Cleaned = Cleaned(organizationId: string, step: Step)

  /** The billing account and the vector store, with a log of the cleanups that have succeeded. */
  class Vendors {
    var log: seq<Cleaned>

    constructor ()
      ensures log == []
    {
      log := [];
    }

    method Cleanup(organizationId: string, step: Step) returns (ok: bool)
      modifies this
      ensures log == old(log) + if ok then [Cleaned(organizationId, step)] else []
    {
      ok := *;
      if ok {
        log := log + [Cleaned(organizationId, step)];
      }
    }
  }

  /** The records that a purge tries to write: that it begins, and how it ended, unless a count failed. */
  function Tried(id: string, holderId: string, r: Outcome): seq<AuditRecord> {
    match r
    case AuditFailed => [AuditRecord(holderId, id, Initiated)]
    case StepFailed => [AuditRecord(holderId, id, Initiated), AuditRecord(holderId, id, Failed)]
    case CountsFailed => [AuditRecord(holderId, id, Initiated)]
    case Success(_, _, _) => [AuditRecord(holderId, id, Initiated), AuditRecord(holderId, id, Completed)]
    case _ => []
  }

  /** What a purge that gets to the end adds to the vendors' log, in this order. */
  function Both(id: string): seq<Cleaned> {
    [Cleaned(id, Stripe), Cleaned(id, VectorStore)]
  }

  // ---------------------------------------------------------------- the purge

  /** The records a purge leaves: it began, and at most how it ended, held by another organization. */
  ghost predicate Trail(before: seq<AuditRecord>, after: seq<AuditRecord>, id: string, holderId: string, deleted: bool, r: Outcome)
  {
    var kept := if deleted then Surviving(before, id) else before;
    var begun := [AuditRecord(holderId, id, Initiated)];
    match r
    case AuditFailed => after == kept || after == kept + begun
    case StepFailed => after == kept + begun || after == kept + begun + [AuditRecord(holderId, id, Failed)]
    case CountsFailed => after == kept + begun
    case _ => after == kept + begun || after == kept + begun + [AuditRecord(holderId, id, Completed)]
  }

  class PurgeService {
    const db: Database
    const external: External
    const vendors: Vendors
    const bucketEnv: map<Ref, string>

    constructor (db: Database, external: External, vendors: Vendors, bucketEnv: map<Ref, string>)
      ensures this.db == db && this.external == external && this.vendors == vendors && this.bucketEnv == bucketEnv
    {
      this.db, this.external, this.vendors, this.bucketEnv := db, external, vendors, bucketEnv;
    }

    /** Ten counts; if one fails, so does the verification. Leftovers are reported, not thrown. */
    method VerifyDeletion(organizationId: string) returns (r: PurgeS3.Result<map<string, nat>>)
      ensures r.Ok? ==> r.value == Leftover(db.rows, TABLES, organizationId)
    {
      var leftoverRows: map<string, nat> := map[];
      for i := 0 to |TABLES|
        invariant leftoverRows == Leftover(db.rows, TABLES[..i], organizationId)
      {
        assert TABLES[..i + 1] == TABLES[..i] + [TABLES[i]];
        var count := db.Count(TABLES[i], organizationId);
        if count.Error? {
          return Error;
        }
        if count.value > 0 {
          leftoverRows := leftoverRows[TABLES[i] := count.value];
        }
      }
      assert TABLES[..|TABLES|] == TABLES;
      r := Ok(leftoverRows);
    }

    /** The steps that share one error handler: any failure ends them, in this order. */
    method CleanUpAndDelete(id: string, org: Organization) returns (r: PurgeS3.Result<nat>)
      requires id in db.orgs
      modifies db, vendors, external.store
      ensures db.orgs == old(db.orgs) || db.orgs == old(db.orgs) - {id}
      ensures id in db.orgs ==> db.orgs == old(db.orgs) && db.audit == old(db.audit) && db.rows == old(db.rows)
      ensures db.attempted == old(db.attempted)
      ensures old(vendors.log) <= vendors.log <= old(vendors.log) + Both(id)
      ensures id !in db.orgs ==> ReadyToDelete(id, org, old(vendors.log)) && db.audit == Surviving(old(db.audit), id)
      ensures id !in db.orgs <==> r.Ok? || db.lostAnswers > old(db.lostAnswers)
      ensures db.lostAnswers > old(db.lostAnswers) ==> r.Error?
      ensures r.Ok? && external.configured ==>
                r.value == DeletedCount(Target(id, bucketEnv, org.s3Keys), old(external.store.buckets), BUCKET_REFS)
    {
      var ok := vendors.Cleanup(id, Stripe);
      if !ok {
        return Error;
      }
      ok := vendors.Cleanup(id, VectorStore);
      if !ok {
        return Error;
      }
      r := external.CleanupS3(Target(id, bucketEnv, org.s3Keys));
      if r.Error? {
        return;
      }
      external.store.OthersWrite();
      var clean := external.VerifyS3Clean(Target(id, bucketEnv, org.s3Keys));
      if clean != Ok(true) {
        return Error;
      }
      ok := db.DeleteOrganization(id);
      if !ok {
        return Error;
      }
    }

    /** Everything a purge must have achieved, in this call, before the row may go. */
    ghost predicate ReadyToDelete(id: string, org: Organization, before: seq<Cleaned>)
      reads vendors, external.store
    {
      && vendors.log == before + Both(id)
      && (external.configured ==> IsClean(Target(id, bucketEnv, org.s3Keys), external.store.buckets))
    }

    /**
     * Purges an organization on behalf of an administrator with these memberships. Between the S3
     * cleanup and its verification others may write to the store.
     */
    method PurgeOrganization(id: string, confirm: string, adminUserId: string, members: seq<Member>, now: int)
      returns (r: Outcome)
      modifies db, vendors, external.store
      // The answer tells how far it came.
      ensures r.NotFound? ==> id !in old(db.orgs)
      ensures r.BadRequest? ==> id in old(db.orgs) && confirm != old(db.orgs)[id].slug
      ensures r.Unprocessable? ==> forall m | m in members && m.userId == adminUserId && m.organizationId != id ::
                                     m.deactivated || m.createdAt >= now - 3_600_000
      ensures r.NotFound? || r.ReadFailed? || r.BadRequest? || r.Unprocessable? ==>
                db.audit == old(db.audit) && db.attempted == old(db.attempted)
      ensures !(r.StepFailed? || r.CountsFailed? || r.Success?) ==>
                && db.orgs == old(db.orgs) && db.rows == old(db.rows)
                && vendors.log == old(vendors.log) && external.store.buckets == old(external.store.buckets)
      ensures r.AuditFailed? || r.StepFailed? || r.CountsFailed? || r.Success? ==>
                && id in old(db.orgs) && confirm == old(db.orgs)[id].slug
                && exists m | m in members && m.userId == adminUserId && m.organizationId != id ::
                     !m.deactivated && m.createdAt < now - 3_600_000 &&
                     (forall n | n in members && MayHoldTheRecord(n, adminUserId, id, now) :: m.createdAt <= n.createdAt) &&
                     Trail(old(db.audit), db.audit, id, m.organizationId, id !in db.orgs, r) &&
                     db.attempted == old(db.attempted) + Tried(id, m.organizationId, r)
      // The row only ever goes once everything outside is gone, and only a delete or a count can fail after that.
      ensures db.orgs == old(db.orgs) || db.orgs == old(db.orgs) - {id}
      ensures id in old(db.orgs) && id !in db.orgs ==> ReadyToDelete(id, old(db.orgs)[id], old(vendors.log))
      ensures old(vendors.log) <= vendors.log <= old(vendors.log) + Both(id)
      ensures id in old(db.orgs) ==>
                (id !in db.orgs <==> r.Success? || r.CountsFailed? || db.lostAnswers > old(db.lostAnswers))
      ensures db.lostAnswers > old(db.lostAnswers) ==> r.StepFailed?
      // Leftovers are reported exactly.
      ensures r.Success? ==> r.leftoverRows == Leftover(db.rows, TABLES, id) && (r.verified <==> r.leftoverRows == map[])
      ensures r.Success? && external.configured ==>
                r.objectsDeleted == DeletedCount(Target(id, bucketEnv, old(db.orgs)[id].s3Keys), old(external.store.buckets), BUCKET_REFS)
    {
      var readable: bool := *;
      if !readable {
        return ReadFailed;
      }
      if id !in db.orgs {
        return NotFound;
      }
      var org := db.orgs[id];
      if confirm != org.slug {
        return BadRequest;
      }
      readable := *;
      if !readable {
        return ReadFailed;
      }
      var holder := FindAdminMembershipOrgId(members, adminUserId, id, now);
      if holder.None? {
        return Unprocessable;
      }
      var holderId := holder.value.organizationId;
      ghost var before := db.audit;
      var audited := db.WriteAudit(AuditRecord(holderId, id, Initiated));
      if !audited {
        return AuditFailed;
      }
      RecordElsewhereSurvives(before, AuditRecord(holderId, id, Initiated), id);
      var objectsDeleted := CleanUpAndDelete(id, org);
      if objectsDeleted.Error? {
        var _ := db.WriteAudit(AuditRecord(holderId, id, Failed));
        return StepFailed;
      }
      var leftover := VerifyDeletion(id);
      if leftover.Error? {
        return CountsFailed;
      }
      var _ := db.WriteAudit(AuditRecord(holderId, id, Completed));
      r := Success(objectsDeleted.value, leftover.value == map[], leftover.value);
    }
  }
}
