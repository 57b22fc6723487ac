/**
 * One invocation of the invite-link refresh: configuration check, the two
 * store reads, the aggregation, and the fan-out of writes, with every
 * thrown error turned into a `false` result.
 *
 * The store is abstract. A read either throws or answers with an optional
 * item list, and each write either succeeds or is rejected; the rejected
 * writes are named by the sort keys of their records.
 */
module Sync {
  import opened Wrappers
  import opened Records
  import opened Aggregator

  /** The process environment variables the module reads. */
  datatype Env = Env(region: Option<string>, table: Option<string>)

  /** The outcome of one store query: it throws, or answers with `Items` (possibly absent). */
  datatype Read<T> = Threw | Answered(items: Option<seq<T>>)

  const RegionRequired := "AMAZON_REGION is required"
  const TableRequired := "AMAZON_DYNAMODB_TABLE is required"

  /**
   * The error the configuration check throws, if any. The region is checked
   * before the table, and an empty value counts as missing.
   */
  function ConfigError(env: Env): (r: Option<string>)
    ensures r.None? <==> Truthy(env.region) && Truthy(env.table)
    ensures !Truthy(env.region) ==> r == Some(RegionRequired)
    ensures Truthy(env.region) && !Truthy(env.table) ==> r == Some(TableRequired)
  {
    if !Truthy(env.region) then Some(RegionRequired)
    else if !Truthy(env.table) then Some(TableRequired)
    else None
  }

  /** The items a read yields once it has not thrown: a missing `Items` is the empty list. */
  function ItemsOf<T>(r: Read<T>): (items: seq<T>)
    requires r.Answered?
    ensures r.items.None? ==> items == []
    ensures r.items.Some? ==> items == r.items.value
  {
    r.items.GetOr([])
  }

  /** Whether a whole run reaches the writes: configuration present and both reads answered. */
  predicate ReachesWrites<G, C>(env: Env, groupsRead: Read<G>, categoriesRead: Read<C>) {
    ConfigError(env).None? && groupsRead.Answered? && categoriesRead.Answered?
  }

  /** The records one run computes, once it reaches the writes. */
  ghost function Planned(payloadDomain: Option<string>, groupsRead: Read<Group>,
                         categoriesRead: Read<Category>, updated: string): map<string, Summary>
    requires groupsRead.Answered? && categoriesRead.Answered?
  {
    Refresh(ItemsOf(groupsRead), ItemsOf(categoriesRead), payloadDomain.GetOr(""), updated)
  }

  /** The records among `records` whose write is not rejected. */
  function Accepted(records: map<string, Summary>, rejected: set<string>): (r: map<string, Summary>)
    ensures r.Keys == records.Keys - rejected
    ensures forall k :: k in r ==> r[k] == records[k]
  {
    map k | k in records && k !in rejected :: records[k]
  }

  /**
   * The module-level state (the configured client and table name) together
   * with the `WHATSAPP#INVITELINKS` partition of the table, keyed by `SK`.
   */
  class Database {
    /** The region the document client was built for; `None` while no client exists. */
    var client: Option<string>
    /** The configured table name; `None` until configured. */
    var table: Option<string>
    /** The invite-link records held by the store, keyed by sort key. */
    var links: map<string, Summary>

    constructor(links: map<string, Summary>)
      ensures client == None && table == None && this.links == links
    {
      client := None;
      table := None;
      this.links := links;
    }

    /**
     * Checks the environment and, when both variables are present, builds
     * the client for the region and records the table name. On a failed
     * check nothing changes and the error message is returned.
     */
    method InitializeClient(env: Env) returns (error: Option<string>)
      modifies this
      ensures error == ConfigError(env)
      ensures error.None? ==> client == env.region && table == env.table
      ensures error.Some? ==> client == old(client) && table == old(table)
      ensures links == old(links)
    {
      if !Truthy(env.region) {
        return Some(RegionRequired);
      }
      if !Truthy(env.table) {
        return Some(TableRequired);
      }
      table := env.table;
      client := env.region;
      return None;
    }

    /**
     * Issues one write per record and waits for all of them. Every write
     * that is not rejected lands, whatever happens to the others; the
     * result is true only when none is rejected.
     */
    method PutAll(records: map<string, Summary>, rejected: set<string>) returns (ok: bool)
      modifies this
      ensures ok <==> records.Keys !! rejected
      ensures links == old(links) + Accepted(records, rejected)
      ensures client == old(client) && table == old(table)
    {
      ok := true;
      var pending := records.Keys;
      while pending != {}
        invariant pending <= records.Keys
        invariant ok <==> (records.Keys - pending) !! rejected
        invariant forall k :: k in links <==> k in old(links) || (k in records && k !in pending && k !in rejected)
        invariant forall k :: k in links ==>
                    links[k] == if k in records && k !in pending && k !in rejected then records[k] else old(links)[k]
        invariant client == old(client) && table == old(table)
        decreases pending
      {
        var k :| k in pending;
        pending := pending - {k};
        if k in rejected {
          ok := false;
        } else {
          links := links[k := records[k]];
        }
      }
      assert links == old(links) + Accepted(records, rejected);
    }

    /**
     * One run of the refresh. It returns false as soon as the configuration
     * check or a read throws; otherwise it computes the records, writes them
     * all, and returns whether every write succeeded.
     */
    method UpdateInviteLinks(env: Env, payloadDomain: Option<string>, groupsRead: Read<Group>,
                             categoriesRead: Read<Category>, rejected: set<string>, updated: string)
      returns (ok: bool)
      modifies this
      ensures ok <==> ReachesWrites(env, groupsRead, categoriesRead) &&
                      Planned(payloadDomain, groupsRead, categoriesRead, updated).Keys !! rejected
      ensures ReachesWrites(env, groupsRead, categoriesRead) ==>
                links == old(links) + Accepted(Planned(payloadDomain, groupsRead, categoriesRead, updated), rejected)
      ensures !ReachesWrites(env, groupsRead, categoriesRead) ==> links == old(links)
      // A record already stored whose key this run does not write keeps its old value: nothing is deleted.
      ensures ReachesWrites(env, groupsRead, categoriesRead) ==>
                forall k :: k in old(links) && k !in Accepted(Planned(payloadDomain, groupsRead, categoriesRead, updated), rejected) ==>
                  k in links && links[k] == old(links)[k]
      ensures ConfigError(env).None? ==> client == env.region && table == env.table
      ensures ConfigError(env).Some? ==> client == old(client) && table == old(table)
    {
      var error := InitializeClient(env);
      if error.Some? {
        return false;
      }
      var domain := payloadDomain.GetOr("");
      if groupsRead.Threw? {
        return false;
      }
      var groups := ItemsOf(groupsRead);
      var publishableGroups := Publishable(groups);
      if categoriesRead.Threw? {
        return false;
      }
      var categories := ItemsOf(categoriesRead);
      var categoryMap := BuildCategoryMap(categories);
      var groupedGroups := GroupByDomainAndCategory(publishableGroups);
      var records := BuildSummaries(groupedGroups, categoryMap, domain, updated);
      ok := PutAll(records, rejected);
    }
  }
}
