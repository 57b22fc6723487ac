/**
 * The aggregation at the heart of `updateInviteLinks`: keep the publishable
 * groups, bucket them by sanitised upper-case domain and category
 * (`groupByDomainAndCategory`), build the category-name lookup, and turn
 * every bucket that passes the domain filter into a summary record holding
 * its ten smallest groups.
 */
module Aggregator {
  import opened Wrappers
  import opened Seqs
  import opened Text
  import opened Records
  import opened Ranking

  // ---------------------------------------------------------------------------
  // Filter

  /** A group is kept when its `Publishable` flag is the boolean true and it has a non-empty invite code. */
  predicate Retained(g: Group) {
    g.publishable == IsTrue && Truthy(g.inviteCode)
  }

  /** The kept groups, in input order. */
  function Publishable(gs: seq<Group>): (r: seq<Group>)
    ensures forall g :: g in r <==> g in gs && Retained(g)
    ensures IsSubsequence(r, gs)
    ensures forall g :: multiset(r)[g] == if Retained(g) then multiset(gs)[g] else 0
  {
    FilterMembers(gs, Retained);
    FilterCounts(gs, Retained);
    FilterIsSubsequence(gs, Retained);
    Filter(gs, Retained)
  }

  // ---------------------------------------------------------------------------
  // Bucket keys

  /**
   * The domain upper-cased and sanitised; a missing or empty domain gives
   * the empty string (sanitising the empty string gives it too).
   */
  function DomainKey(g: Group): string {
    Sanitize(ToUpper(g.domain.GetOr("")))
  }

  /** The category upper-cased and sanitised, likewise. */
  function CategoryKey(g: Group): string {
    Sanitize(ToUpper(g.category.GetOr("")))
  }

  /** `DOMAIN#CATEGORY`, `DOMAIN`, or no bucket when the domain key is empty. */
  function BucketKey(g: Group): Option<string> {
    var d, c := DomainKey(g), CategoryKey(g);
    if d != "" && c != "" then Some(d + "#" + c)
    else if d != "" then Some(d)
    else None
  }

  /** Testing the attribute before sanitising, as the source does, gives the same keys. */
  lemma KeyPartsAgree(g: Group)
    ensures (if Truthy(g.domain) then Sanitize(ToUpper(g.domain.value)) else "") == DomainKey(g)
    ensures (if Truthy(g.category) then Sanitize(ToUpper(g.category.value)) else "") == CategoryKey(g)
  {
    assert ToUpper("") == "";
  }

  /** The bucket key, from the two parts as the source computes them. */
  lemma BucketKeyOfParts(g: Group, domain: string, category: string)
    requires domain == if Truthy(g.domain) then Sanitize(ToUpper(g.domain.value)) else ""
    requires category == if Truthy(g.category) then Sanitize(ToUpper(g.category.value)) else ""
    ensures BucketKey(g) ==
      if domain != "" && category != "" then Some(domain + "#" + category)
      else if domain != "" then Some(domain)
      else None
  {
    KeyPartsAgree(g);
  }

  /** A group has a bucket exactly when its domain key is non-empty. */
  lemma HasBucketKey(g: Group)
    ensures BucketKey(g).Some? <==> DomainKey(g) != ""
  {
  }

  /** Sanitised text never holds the separator `#`. */
  lemma NoHashInSanitized(s: string)
    ensures '#' !in Sanitize(s)
  {
  }

  /**
   * A group has a bucket exactly when its domain key is non-empty, and
   * splitting the bucket key on `#` gives back the domain key, followed by
   * the category key when that is non-empty.
   */
  lemma BucketKeySplits(g: Group)
    ensures BucketKey(g).Some? <==> DomainKey(g) != ""
    ensures BucketKey(g).Some? ==>
              Split(BucketKey(g).value) ==
                [DomainKey(g)] + (if CategoryKey(g) != "" then [CategoryKey(g)] else [])
  {
    var d, c := DomainKey(g), CategoryKey(g);
    NoHashInSanitized(ToUpper(g.domain.GetOr("")));
    NoHashInSanitized(ToUpper(g.category.GetOr("")));
    assert '#' !in d && '#' !in c;
    if d != "" && c != "" {
      SplitJoin(d, c);
      SplitWithoutHash(c);
    } else if d != "" {
      SplitWithoutHash(d);
    }
  }

  // ---------------------------------------------------------------------------
  // Grouping

  /** The result of `groupByDomainAndCategory`: each occurring bucket key mapped to its groups, in input order. */
  ghost function Grouped(gs: seq<Group>): map<string, seq<Group>> {
    GroupBy(gs, BucketKey)
  }

  /**
   * `groupByDomainAndCategory`: a single pass that creates a bucket on first
   * sight of its key and pushes each group onto it.
   */
  method GroupByDomainAndCategory(groups: seq<Group>) returns (acc: map<string, seq<Group>>)
    ensures acc == Grouped(groups)
  {
    acc := map[];
    for i := 0 to |groups|
      invariant acc == Grouped(groups[..i])
    {
      var group := groups[i];
      var domain := if Truthy(group.domain) then Sanitize(ToUpper(group.domain.value)) else "";
      var category := if Truthy(group.category) then Sanitize(ToUpper(group.category.value)) else "";
      BucketKeyOfParts(group, domain, category);
      var key: string;
      if domain != "" && category != "" {
        key := domain + "#" + category;
      } else if domain != "" {
        key := domain;
      } else {
        SkipGroup(groups, i);
        continue;
      }
      PushOntoBucket(groups, i, acc, key);
      if key !in acc {
        acc := acc[key := []];
      }
      acc := acc[key := acc[key] + [group]];
    }
    assert groups[..|groups|] == groups;
  }

  /** A group with a bucket key is pushed onto the end of its bucket, which is created when missing. */
  lemma PushOntoBucket(gs: seq<Group>, i: nat, acc: map<string, seq<Group>>, key: string)
    requires i < |gs| && acc == Grouped(gs[..i])
    requires BucketKey(gs[i]) == Some(key)
    ensures var created := if key in acc then acc else acc[key := []];
            Grouped(gs[..i + 1]) == created[key := created[key] + [gs[i]]]
  {
    assert gs[..i + 1] == gs[..i] + [gs[i]];
    GroupBySnocSome(gs[..i], gs[i], BucketKey, key);
    CreateThenPush(acc, key, gs[i]);
  }

  /** Creating a missing bucket and then pushing onto it is one push onto the bucket or onto nothing. */
  lemma CreateThenPush(acc: map<string, seq<Group>>, key: string, g: Group)
    ensures var created := if key in acc then acc else acc[key := []];
            created[key := created[key] + [g]] == acc[key := (if key in acc then acc[key] else []) + [g]]
  {
    if key !in acc {
      assert acc[key := []][key := [g]] == acc[key := [g]];
    }
  }

  /** A group without a bucket key changes no bucket. */
  lemma SkipGroup(gs: seq<Group>, i: nat)
    requires i < |gs| && BucketKey(gs[i]).None?
    ensures Grouped(gs[..i + 1]) == Grouped(gs[..i])
  {
    assert gs[..i + 1] == gs[..i] + [gs[i]];
    GroupBySnocNone(gs[..i], gs[i], BucketKey);
  }

  /**
   * Every bucket is non-empty, holds exactly the groups with its key, and
   * keeps them in input order.
   */
  lemma GroupedBuckets(gs: seq<Group>)
    ensures forall k :: k in Grouped(gs) ==> Grouped(gs)[k] != [] && IsSubsequence(Grouped(gs)[k], gs)
    ensures forall k, g :: k in Grouped(gs) ==> (g in Grouped(gs)[k] <==> g in gs && BucketKey(g) == Some(k))
  {
    forall k | k in Grouped(gs)
      ensures Grouped(gs)[k] != [] && IsSubsequence(Grouped(gs)[k], gs)
      ensures forall g :: g in Grouped(gs)[k] <==> g in gs && BucketKey(g) == Some(k)
    {
      GroupOfKey(gs, BucketKey, k);
    }
  }

  /** A bucket holds every occurrence of each group with its key, and no other group. */
  lemma GroupedCounts(gs: seq<Group>, k: string)
    requires k in Grouped(gs)
    ensures forall g :: multiset(Grouped(gs)[k])[g] == if BucketKey(g) == Some(k) then multiset(gs)[g] else 0
  {
    GroupByCounts(gs, BucketKey, k);
  }

  /**
   * A group with a non-empty domain key lies in the bucket of its own key
   * and in no other; a group with an empty domain key lies in none.
   */
  lemma GroupedPlacesGroup(gs: seq<Group>, g: Group)
    requires g in gs
    ensures DomainKey(g) != "" ==>
              BucketKey(g).Some? && BucketKey(g).value in Grouped(gs) && g in Grouped(gs)[BucketKey(g).value]
              && forall k :: k in Grouped(gs) && g in Grouped(gs)[k] ==> k == BucketKey(g).value
    ensures DomainKey(g) == "" ==> forall k :: k in Grouped(gs) ==> g !in Grouped(gs)[k]
  {
    GroupByPartitions(gs, BucketKey);
    HasBucketKey(g);
  }

  // ---------------------------------------------------------------------------
  // Category lookup

  /** The category lookup: each category's `SK` mapped to its (possibly absent) `Name`. */
  function CategoryMap(cats: seq<Category>): (m: map<string, Option<string>>)
    ensures m.Keys == set c | c in cats :: c.sk
  {
    if cats == [] then map[]
    else
      var init, last := cats[..|cats| - 1], cats[|cats| - 1];
      assert cats == init + [last];
      CategoryMap(init)[last.sk := last.name]
  }

  /** When several categories share an `SK`, the name of the last one is kept. */
  lemma {:induction false} CategoryMapLastWins(cats: seq<Category>, i: nat)
    requires i < |cats|
    requires forall j :: i < j < |cats| ==> cats[j].sk != cats[i].sk
    ensures cats[i].sk in CategoryMap(cats) && CategoryMap(cats)[cats[i].sk] == cats[i].name
  {
    var init := cats[..|cats| - 1];
    if i < |cats| - 1 {
      assert init[i] == cats[i];
      CategoryMapLastWins(init, i);
    }
  }

  /** The `reduce` that builds the category lookup, one assignment per category. */
  method BuildCategoryMap(categories: seq<Category>) returns (categoryMap: map<string, Option<string>>)
    ensures categoryMap == CategoryMap(categories)
  {
    categoryMap := map[];
    for i := 0 to |categories|
      invariant categoryMap == CategoryMap(categories[..i])
    {
      var category := categories[i];
      assert categories[..i + 1][..i] == categories[..i];
      categoryMap := categoryMap[category.sk := category.name];
    }
    assert categories[..|categories|] == categories;
  }

  // ---------------------------------------------------------------------------
  // Summary records

  /**
   * The bucket is skipped when a domain filter is given and the key's domain
   * part differs from the upper-cased filter, or when the domain part is empty.
   */
  predicate Emitted(key: string, filter: string) {
    var domainKey := Split(key)[0];
    !((filter != "" && domainKey != ToUpper(filter)) || domainKey == "")
  }

  /** The summary record of one bucket, as the loop body of `updateInviteLinks` builds it. */
  function Shape(key: string, bucket: seq<Group>, categoryMap: map<string, Option<string>>, updated: string): Summary {
    var parts := Split(key);
    var domainKey := parts[0];
    var categoryKey := if |parts| > 1 then Some(parts[1]) else None;
    var ranked := Rank(bucket);
    var summary := Summary(
      InviteLinksPk,
      if Truthy(categoryKey) then domainKey + "#" + categoryKey.value else domainKey,
      if |ranked| > 0 then ranked[0].domain else Some(FormatName(domainKey)),
      Entries(ranked),
      updated,
      None);
    if Truthy(categoryKey) && categoryKey.value in categoryMap && Truthy(categoryMap[categoryKey.value])
    then summary.(categoryName := categoryMap[categoryKey.value])
    else summary
  }

  /** One summary record per bucket that passes the domain filter, keyed by bucket key. */
  function Summaries(grouped: map<string, seq<Group>>, categoryMap: map<string, Option<string>>,
                     filter: string, updated: string): map<string, Summary>
  {
    map key | key in grouped && Emitted(key, filter) :: Shape(key, grouped[key], categoryMap, updated)
  }

  /**
   * The loop of `updateInviteLinks` over the bucket keys: the
   * keys are visited in an unspecified order, each surviving bucket is
   * ranked and shaped, and its record is collected for writing.
   */
  method BuildSummaries(grouped: map<string, seq<Group>>, categoryMap: map<string, Option<string>>,
                        filter: string, updated: string) returns (records: map<string, Summary>)
    ensures records == Summaries(grouped, categoryMap, filter, updated)
  {
    records := map[];
    var pending := grouped.Keys;
    while pending != {}
      invariant pending <= grouped.Keys
      invariant forall key :: key in records <==> key in grouped && key !in pending && Emitted(key, filter)
      invariant forall key :: key in records ==> records[key] == Shape(key, grouped[key], categoryMap, updated)
      decreases pending
    {
      var key :| key in pending;
      pending := pending - {key};
      var parts := Split(key);
      var domainKey := parts[0];
      var categoryKey := if |parts| > 1 then Some(parts[1]) else None;
      if (filter != "" && domainKey != ToUpper(filter)) || domainKey == "" {
        continue;
      }
      var sortedGroups := Rank(grouped[key]);
      var inviteCodes := Entries(sortedGroups);
      var domainDisplayName := if |sortedGroups| > 0 then sortedGroups[0].domain else Some(FormatName(domainKey));
      var sk := if Truthy(categoryKey) then domainKey + "#" + categoryKey.value else domainKey;
      var params := Summary(InviteLinksPk, sk, domainDisplayName, inviteCodes, updated, None);
      if Truthy(categoryKey) && categoryKey.value in categoryMap && Truthy(categoryMap[categoryKey.value]) {
        params := params.(categoryName := categoryMap[categoryKey.value]);
      }
      assert params == Shape(key, grouped[key], categoryMap, updated);
      records := records[key := params];
    }
    assert records.Keys == Summaries(grouped, categoryMap, filter, updated).Keys;
  }

  // ---------------------------------------------------------------------------
  // The whole aggregation

  /** The bucket of key `k` among the publishable groups (empty when there is none). */
  ghost function BucketOf(groups: seq<Group>, k: string): seq<Group> {
    WithKey(Publishable(groups), BucketKey, k)
  }

  /** The records one refresh computes from the store's groups and categories. */
  ghost function Refresh(groups: seq<Group>, categories: seq<Category>, filter: string, updated: string): map<string, Summary> {
    Summaries(Grouped(Publishable(groups)), CategoryMap(categories), filter, updated)
  }

  // ---------------------------------------------------------------------------
  // Properties of the records

  /** A non-empty domain key comes from a present, non-empty `Domain`. */
  lemma DomainKeyHasDomain(g: Group)
    requires DomainKey(g) != ""
    ensures Truthy(g.domain)
  {
    assert ToUpper("") == "";
  }

  /**
   * The record built for a non-empty bucket of key `k`: fixed partition key,
   * sort key rebuilt equal to `k`, the entries of the ranked groups in rank
   * order, and as display domain the raw `Domain` of the first ranked group,
   * which is always present (the title-case fallback is never taken).
   */
  lemma ShapeOfBucket(k: string, bucket: seq<Group>, categoryMap: map<string, Option<string>>, updated: string)
    requires bucket != []
    requires forall g :: g in bucket ==> BucketKey(g) == Some(k)
    ensures |Rank(bucket)| >= 1
    ensures Shape(k, bucket, categoryMap, updated).pk == InviteLinksPk
    ensures Shape(k, bucket, categoryMap, updated).sk == k
    ensures Shape(k, bucket, categoryMap, updated).updated == updated
    ensures Shape(k, bucket, categoryMap, updated).inviteCodes == Entries(Rank(bucket))
    ensures Shape(k, bucket, categoryMap, updated).domainName == Rank(bucket)[0].domain
    ensures Truthy(Rank(bucket)[0].domain) && DomainKey(Rank(bucket)[0]) == Split(k)[0]
    ensures 1 <= |Split(k)| <= 2 && (|Split(k)| == 2 ==> Split(k)[1] != "")
    ensures Shape(k, bucket, categoryMap, updated).categoryName.Some? <==>
              |Split(k)| == 2 && Split(k)[1] in categoryMap && Truthy(categoryMap[Split(k)[1]])
    ensures Shape(k, bucket, categoryMap, updated).categoryName.Some? ==>
              Shape(k, bucket, categoryMap, updated).categoryName == categoryMap[Split(k)[1]]
  {
    RankCorrect(bucket);
    var g0 := Rank(bucket)[0];
    assert g0 in multiset(Rank(bucket));
    assert g0 in bucket;
    BucketKeySplits(g0);
    DomainKeyHasDomain(g0);
  }

  /**
   * A record is emitted for key `k` exactly when some publishable group with
   * an invite code has bucket key `k` and, when a filter is given, that
   * group's domain key equals the upper-cased filter.
   */
  lemma RefreshKeys(groups: seq<Group>, categories: seq<Category>, filter: string, updated: string)
    ensures forall k :: k in Refresh(groups, categories, filter, updated) <==>
              exists g :: g in groups && Retained(g) && BucketKey(g) == Some(k) &&
                          (filter == "" || DomainKey(g) == ToUpper(filter))
  {
    var pub := Publishable(groups);
    var grouped := Grouped(pub);
    GroupByPartitions(pub, BucketKey);
    forall k ensures k in Refresh(groups, categories, filter, updated) <==>
                     exists g :: g in groups && Retained(g) && BucketKey(g) == Some(k) &&
                                 (filter == "" || DomainKey(g) == ToUpper(filter))
    {
      if k in Refresh(groups, categories, filter, updated) {
        assert k in grouped && Emitted(k, filter);
        var g :| g in grouped[k];
        BucketKeySplits(g);
        assert g in groups && Retained(g) && BucketKey(g) == Some(k);
      }
      if exists g :: g in groups && Retained(g) && BucketKey(g) == Some(k) &&
                     (filter == "" || DomainKey(g) == ToUpper(filter)) {
        var g :| g in groups && Retained(g) && BucketKey(g) == Some(k) &&
                 (filter == "" || DomainKey(g) == ToUpper(filter));
        assert g in pub;
        BucketKeySplits(g);
        assert k in grouped && Emitted(k, filter);
      }
    }
  }

  /**
   * Each emitted record for key `k`: its bucket holds exactly the
   * publishable groups with an invite code whose bucket key is `k`; the
   * record carries the fixed partition key, `SK == k`, the run's timestamp,
   * one `SK|Name|InviteCode` entry per ranked group in rank order (at most
   * ten), and the raw `Domain` of the first ranked group.
   */
  lemma RefreshRecord(groups: seq<Group>, categories: seq<Category>, filter: string, updated: string, k: string)
    requires k in Refresh(groups, categories, filter, updated)
    ensures BucketOf(groups, k) != []
    ensures forall g :: g in BucketOf(groups, k) <==> g in groups && Retained(g) && BucketKey(g) == Some(k)
    ensures |Rank(BucketOf(groups, k))| == Min(TopN, |BucketOf(groups, k)|)
    ensures Refresh(groups, categories, filter, updated)[k].pk == InviteLinksPk
    ensures Refresh(groups, categories, filter, updated)[k].sk == k
    ensures Refresh(groups, categories, filter, updated)[k].updated == updated
    ensures Refresh(groups, categories, filter, updated)[k].inviteCodes == Entries(Rank(BucketOf(groups, k)))
    ensures |Refresh(groups, categories, filter, updated)[k].inviteCodes| <= TopN
    ensures Refresh(groups, categories, filter, updated)[k].domainName == Rank(BucketOf(groups, k))[0].domain
    ensures Truthy(Rank(BucketOf(groups, k))[0].domain)
  {
    var pub := Publishable(groups);
    var bucket := BucketOf(groups, k);
    GroupByPartitions(pub, BucketKey);
    assert Grouped(pub)[k] == bucket;
    RankCorrect(bucket);
    ShapeOfBucket(k, bucket, CategoryMap(categories), updated);
  }

  /**
   * `CategoryName` is present exactly when the key has a category part and
   * the category lookup holds a non-empty name under exactly that part; it
   * is then that name, the one of the last category with that `SK`.
   */
  lemma RefreshCategoryName(groups: seq<Group>, categories: seq<Category>, filter: string, updated: string, k: string)
    requires k in Refresh(groups, categories, filter, updated)
    ensures 1 <= |Split(k)| <= 2
    ensures Refresh(groups, categories, filter, updated)[k].categoryName.Some? <==>
              |Split(k)| == 2 && Split(k)[1] in CategoryMap(categories) && Truthy(CategoryMap(categories)[Split(k)[1]])
    ensures Refresh(groups, categories, filter, updated)[k].categoryName.Some? ==>
              exists i :: 0 <= i < |categories| && categories[i].sk == Split(k)[1] &&
                          Refresh(groups, categories, filter, updated)[k].categoryName == categories[i].name &&
                          forall j :: i < j < |categories| ==> categories[j].sk != Split(k)[1]
  {
    var pub := Publishable(groups);
    var bucket := BucketOf(groups, k);
    GroupByPartitions(pub, BucketKey);
    assert Grouped(pub)[k] == bucket;
    ShapeOfBucket(k, bucket, CategoryMap(categories), updated);
    var r := Refresh(groups, categories, filter, updated)[k];
    if r.categoryName.Some? {
      var c := Split(k)[1];
      var i := LastWithSk(categories, c);
      CategoryMapLastWins(categories, i);
    }
  }

  /** The index of the last category whose `SK` is `sk`. */
  lemma LastWithSk(cats: seq<Category>, sk: string) returns (i: nat)
    requires sk in CategoryMap(cats)
    ensures i < |cats| && cats[i].sk == sk
    ensures forall j :: i < j < |cats| ==> cats[j].sk != sk
  {
    var c :| c in cats && c.sk == sk;
    var k :| 0 <= k < |cats| && cats[k] == c;
    i := k;
    while i + 1 < |cats| && exists j :: i < j < |cats| && cats[j].sk == sk
      invariant i < |cats| && cats[i].sk == sk
      decreases |cats| - i
    {
      var j :| i < j < |cats| && cats[j].sk == sk;
      i := j;
    }
  }

  /** The bucket of `k` holds exactly the publishable groups with an invite code and bucket key `k`. */
  lemma BucketOfMembers(groups: seq<Group>, k: string)
    ensures forall g :: g in BucketOf(groups, k) <==> g in groups && Retained(g) && BucketKey(g) == Some(k)
  {
    WithKeyMembers(Publishable(groups), BucketKey, k);
  }

  /** A group that is not publishable or has no invite code is in no bucket and no ranked list. */
  lemma UnpublishableExcluded(groups: seq<Group>, g: Group, k: string)
    requires !Retained(g)
    ensures g !in BucketOf(groups, k) && g !in Rank(BucketOf(groups, k))
  {
    var b := BucketOf(groups, k);
    BucketOfMembers(groups, k);
    RankCorrect(b);
    assert g !in multiset(b);
    assert multiset(Rank(b)) <= multiset(b);
  }

  /**
   * The filter is upper-cased but not sanitised: a filter holding any
   * character outside `[A-Za-z0-9]` matches no bucket, so nothing is emitted.
   */
  lemma UnsanitisedFilterMatchesNothing(groups: seq<Group>, categories: seq<Category>, filter: string, updated: string)
    requires exists i :: 0 <= i < |filter| && !IsAlnum(filter[i])
    ensures Refresh(groups, categories, filter, updated) == map[]
  {
    var i :| 0 <= i < |filter| && !IsAlnum(filter[i]);
    assert ToUpper(filter)[i] == filter[i];
    assert filter != "";
    assert forall g :: DomainKey(g) != ToUpper(filter);
    RefreshKeys(groups, categories, filter, updated);
    assert Refresh(groups, categories, filter, updated).Keys == {};
  }

  /** Filters that agree after upper-casing select the same records. */
  lemma FilterIsCaseInsensitive(groups: seq<Group>, categories: seq<Category>, f1: string, f2: string, updated: string)
    requires ToUpper(f1) == ToUpper(f2)
    ensures Refresh(groups, categories, f1, updated) == Refresh(groups, categories, f2, updated)
  {
    assert |f1| == |ToUpper(f1)| == |ToUpper(f2)| == |f2|;
    forall k ensures Emitted(k, f1) == Emitted(k, f2) {
    }
  }

  /** Two runs over the same store contents differ only in the `Updated` timestamp. */
  lemma RefreshIgnoresTimestamp(groups: seq<Group>, categories: seq<Category>, filter: string, u1: string, u2: string)
    ensures Refresh(groups, categories, filter, u1).Keys == Refresh(groups, categories, filter, u2).Keys
    ensures forall k :: k in Refresh(groups, categories, filter, u1) ==>
              Refresh(groups, categories, filter, u2)[k] == Refresh(groups, categories, filter, u1)[k].(updated := u2)
  {
  }

  /** Any group whose domain is "dev" and category "tech" goes to bucket `DEV#TECH`. */
  lemma DevTechKey(g: Group)
    requires g.domain == Some("dev") && g.category == Some("tech")
    ensures BucketKey(g) == Some("DEV#TECH")
  {
    UpperWord("dev", "DEV");
    UpperWord("tech", "TECH");
    assert DomainKey(g) == "DEV";
    assert CategoryKey(g) == "TECH";
    assert "DEV" + "#" + "TECH" == "DEV#TECH";
  }

  /** An alphanumeric word whose upper case is `w` has key `w`. */
  lemma UpperWord(s: string, w: string)
    requires |s| == |w| && forall i :: 0 <= i < |s| ==> UpperChar(s[i]) == w[i] && IsAlnum(w[i])
    ensures Sanitize(ToUpper(s)) == w
  {
    assert ToUpper(s) == w;
    SanitizeFixesAlnum(w);
  }

  /**
   * Two publishable groups in domain "dev", category "tech", with 5 and 2
   * members, and one category whose `SK` is "tech": one record, `DEV#TECH`,
   * lists the smaller group first and has no `CategoryName`, because the
   * lookup uses the sanitised upper-case key "TECH" and category keys are
   * matched exactly.
   */
  lemma LowercaseCategoryKeyIsNotFound(g1: Group, g2: Group, cats: seq<Category>, updated: string)
    requires g1 == Group("g1", "n1", Some("dev"), Some("tech"), IsTrue, Some("X"), Some(5))
    requires g2 == Group("g2", "n2", Some("dev"), Some("tech"), IsTrue, Some("Y"), Some(2))
    requires cats == [Category("tech", Some("Technology"))]
    ensures Refresh([g1, g2], cats, "", updated).Keys == {"DEV#TECH"}
    ensures Refresh([g1, g2], cats, "", updated)["DEV#TECH"].inviteCodes == ["g2|n2|Y", "g1|n1|X"]
    ensures Refresh([g1, g2], cats, "", updated)["DEV#TECH"].categoryName == None
  {
    ScenarioEntryStrings(g1, g2);
    DevTechSplit();
    DevTechKey(g1);
    DevTechKey(g2);
    PairBucket(g1, g2, cats, updated, "DEV#TECH");
  }

  /**
   * Two kept groups sharing key `k`, the first with more members, and no
   * category whose `SK` is exactly the key's category part: the unfiltered
   * refresh emits `k` alone, lists the smaller group first and sets no
   * `CategoryName`.
   */
  lemma PairBucket(g1: Group, g2: Group, cats: seq<Category>, updated: string, k: string)
    requires Retained(g1) && Retained(g2) && BucketKey(g1) == Some(k) && BucketKey(g2) == Some(k)
    requires Members(g1) > Members(g2)
    requires |Split(k)| == 2 && forall c :: c in cats ==> c.sk != Split(k)[1]
    ensures Refresh([g1, g2], cats, "", updated).Keys == {k}
    ensures Refresh([g1, g2], cats, "", updated)[k].inviteCodes == Entries([g2, g1])
    ensures Refresh([g1, g2], cats, "", updated)[k].categoryName == None
  {
    var groups := [g1, g2];
    SingleKeyRefresh(groups, cats, updated, k);
    ScenarioBucket(g1, g2, k);
    RecordEntries(groups, cats, "", updated, k, [g2, g1]);
    NoExactCategory(groups, cats, "", updated, k);
  }

  /** The entries of the two example groups, larger one last. */
  lemma ScenarioEntryStrings(g1: Group, g2: Group)
    requires g1.sk == "g1" && g1.name == "n1" && g1.inviteCode == Some("X")
    requires g2.sk == "g2" && g2.name == "n2" && g2.inviteCode == Some("Y")
    ensures Entries([g2, g1]) == ["g2|n2|Y", "g1|n1|X"]
  {
    assert "g1" + "|" + "n1" + "|" + "X" == "g1|n1|X";
    assert "g2" + "|" + "n2" + "|" + "Y" == "g2|n2|Y";
  }

  /** The example bucket key splits into its domain and category parts. */
  lemma DevTechSplit()
    ensures Split("DEV#TECH") == ["DEV", "TECH"]
  {
    SplitWithoutHash("TECH");
    SplitJoin("DEV", "TECH");
    assert "DEV" + "#" + "TECH" == "DEV#TECH";
  }

  /**
   * The entry clause of `RefreshRecord` on its own, for proofs about concrete
   * inputs where the full set of record facts is too costly to carry.
   */
  lemma RecordEntries(groups: seq<Group>, categories: seq<Category>, filter: string, updated: string,
                      k: string, ranked: seq<Group>)
    requires k in Refresh(groups, categories, filter, updated) && Rank(BucketOf(groups, k)) == ranked
    ensures Refresh(groups, categories, filter, updated)[k].inviteCodes == Entries(ranked)
  {
    RefreshRecord(groups, categories, filter, updated, k);
  }

  /** With no category whose `SK` is exactly the key's category part, `CategoryName` is absent. */
  lemma NoExactCategory(groups: seq<Group>, categories: seq<Category>, filter: string, updated: string, k: string)
    requires k in Refresh(groups, categories, filter, updated)
    requires |Split(k)| == 2 && forall c :: c in categories ==> c.sk != Split(k)[1]
    ensures Refresh(groups, categories, filter, updated)[k].categoryName == None
  {
    RefreshCategoryName(groups, categories, filter, updated, k);
  }

  /** When every group is kept and shares key `k`, the unfiltered refresh emits `k` alone. */
  lemma SingleKeyRefresh(groups: seq<Group>, cats: seq<Category>, updated: string, k: string)
    requires groups != [] && forall g :: g in groups ==> Retained(g) && BucketKey(g) == Some(k)
    ensures Refresh(groups, cats, "", updated).Keys == {k}
  {
    RefreshKeys(groups, cats, "", updated);
    assert groups[0] in groups;
  }

  /** Two kept groups sharing a key are ranked smaller first. */
  lemma ScenarioBucket(g1: Group, g2: Group, k: string)
    requires Retained(g1) && Retained(g2) && BucketKey(g1) == Some(k) && BucketKey(g2) == Some(k)
    requires Members(g1) > Members(g2)
    ensures Rank(BucketOf([g1, g2], k)) == [g2, g1]
  {
    var s := [g1, g2];
    FilterKeepsAll(s, Retained);
    assert Publishable(s) == s;
    assert HasKey(BucketKey, k)(g1) && HasKey(BucketKey, k)(g2);
    FilterKeepsAll(s, HasKey(BucketKey, k));
    assert BucketOf(s, k) == s;
    assert s[1..] == [g2] && [g2][1..] == [];
    assert SortByMembers([g2]) == [g2];
    assert Insert(g1, []) == [g1];
    assert SortByMembers(s) == [g2, g1];
  }
}
