/**
 * The `Database` class: the alias pool (`gmails`, loaded from the pool
 * file) and the assignment record (`services`, loaded from the JSON
 * document), with the operations that query and update them.
 *
 * The two files are ghost fields: `poolFile` is the pool file's text and
 * `document` the JSON document's content, `None` when the file is missing
 * or cannot be parsed. Every write to a file is an assignment to its field.
 */
module Database {
  import opened Wrappers
  import opened Text
  import opened PoolFile
  import opened Combinations
  import opened DotVariants
  import opened ServiceStore

  /** The message `generate_domain_names` raises for an address outside Gmail. */
  const NotGmail: string := "Почта должна быть Gmail (@gmail.com)"

  class Database {
    var gmails: seq<string>
    var services: Services
    ghost var poolFile: Option<string>
    ghost var document: Option<Services>

    /**
     * Loads the pool (a missing file gives an empty pool) and the record
     * (a missing or unparsable document gives an empty one), then migrates
     * old-format entries, writing the document back only if one was converted.
     */
    constructor(poolText: Option<string>, stored: Option<Services>)
      ensures gmails == (if poolText.Some? then LoadGmails(poolText.value) else [])
      ensures var loaded := if stored.Some? then stored.value else map[];
        && services == Migrated(loaded)
        && document == (if HasLegacy(loaded) then Some(services) else stored)
      ensures poolFile == poolText
    {
      gmails := if poolText.Some? then LoadGmails(poolText.value) else [];
      services := if stored.Some? then stored.value else map[];
      poolFile := poolText;
      document := stored;
      new;
      MigrateIfNeeded();
    }

    /** `_save_services_data`: the document now holds the record. */
    method Save()
      modifies this
      ensures document == Some(services)
      ensures gmails == old(gmails) && services == old(services) && poolFile == old(poolFile)
    {
      document := Some(services);
    }

    /**
     * `_migrate_data_if_needed`: every bare-string entry becomes a list of
     * its one alias; the document is written only when something changed.
     */
    method MigrateIfNeeded()
      modifies this
      ensures services == Migrated(old(services))
      ensures document == if HasLegacy(old(services)) then Some(services) else old(document)
      ensures gmails == old(gmails) && poolFile == old(poolFile)
    {
      ghost var start := services;
      var needSave := false;
      var pending := services.Keys;
      while pending != {}
        invariant pending <= start.Keys && services.Keys == start.Keys
        invariant forall k :: k in start && k !in pending ==> services[k] == Current(Aliases(start[k]))
        invariant forall k :: k in pending ==> services[k] == start[k]
        invariant needSave <==> exists k :: k in start && k !in pending && start[k].Legacy?
        invariant gmails == old(gmails) && poolFile == old(poolFile) && document == old(document)
        decreases |pending|
      {
        var k :| k in pending;
        if services[k].Legacy? {
          services := services[k := Current([services[k].alias])];
          needSave := true;
        }
        pending := pending - {k};
      }
      assert services == Migrated(start);
      if needSave {
        Save();
      }
    }

    /** `get_all_used_gmails`: every alias any service holds. */
    method GetAllUsedGmails() returns (used: set<string>)
      ensures used == UsedSet(services)
    {
      used := {};
      var pending := services.Keys;
      UsedAmongAll(services);
      while pending != {}
        invariant pending <= services.Keys
        invariant used == UsedAmong(services, services.Keys - pending)
        decreases |pending|
      {
        var k :| k in pending;
        UsedAmongAdd(services, services.Keys - pending, k);
        match services[k] {
          case Current(l) =>
            used := used + ToSet(l);
          case Legacy(a) =>
            used := used + {a};
        }
        assert services.Keys - (pending - {k}) == (services.Keys - pending) + {k};
        pending := pending - {k};
      }
      assert services.Keys - pending == services.Keys;
    }

    /** The loop both searches share: the first alias of the pool outside `excluded`. */
    method FirstNotIn(excluded: set<string>) returns (r: Option<string>)
      ensures r == FirstOutside(gmails, excluded)
    {
      var i := 0;
      while i < |gmails|
        invariant 0 <= i <= |gmails|
        invariant forall j :: 0 <= j < i ==> gmails[j] in excluded
      {
        if gmails[i] !in excluded {
          FirstOutsideAtUnique(gmails, excluded, i);
          return Some(gmails[i]);
        }
        i := i + 1;
      }
      FirstOutsideAtUnique(gmails, excluded, i);
      return None;
    }

    /** `get_unused_gmail`: the first pool alias that no service holds. */
    method GetUnusedGmail() returns (r: Option<string>)
      ensures r == UnusedAnywhere(services, gmails)
      ensures r.None? <==> forall j :: 0 <= j < |gmails| ==> gmails[j] in UsedSet(services)
    {
      var used := GetAllUsedGmails();
      r := FirstNotIn(used);
    }

    /** `get_unused_gmail_for_service`: the first pool alias the service has not been given. */
    method GetUnusedGmailForService(name: string) returns (r: Option<string>)
      ensures r == UnusedFor(services, gmails, name)
      ensures r.Some? ==> r.value in gmails && r.value !in ServiceList(services, name)
    {
      var key := Lower(name);
      var emails := if key in services then services[key] else Current([]);
      var list := match emails case Legacy(a) => [a] case Current(l) => l;
      r := FirstNotIn(ToSet(list));
    }

    /**
     * `get_service_gmails`: the aliases of the service, oldest first, under
     * its lower-cased name; a bare string is a list of one, an unknown service has none.
     */
    function ServiceGmails(name: string): (r: seq<string>)
      reads this
      ensures Lower(name) !in services ==> r == []
      ensures Lower(name) in services && services[Lower(name)].Legacy? ==> r == [services[Lower(name)].alias]
      ensures Lower(name) in services && services[Lower(name)].Current? ==> r == services[Lower(name)].aliases
    {
      ServiceList(services, name)
    }

    /** `get_latest_service_gmail`: the alias the service was given last, if any. */
    function LatestServiceGmail(name: string): (r: Option<string>)
      reads this
      ensures r.None? <==> ServiceGmails(name) == []
      ensures r.Some? ==> r.value == ServiceGmails(name)[|ServiceGmails(name)| - 1]
    {
      Latest(services, name)
    }

    /**
     * `assign_gmail_to_service`: the service's entry becomes a list and `g`
     * is appended unless already there; the document is written only on an append.
     */
    method AssignGmailToService(name: string, g: string)
      modifies this
      ensures services == Assigned(old(services), name, g)
      ensures document == if g in ServiceList(old(services), name) then old(document) else Some(services)
      ensures gmails == old(gmails) && poolFile == old(poolFile)
    {
      var key := Lower(name);
      if key !in services {
        services := services[key := Current([])];
      }
      if services[key].Legacy? {
        services := services[key := Current([services[key].alias])];
      }
      var list := services[key].aliases;
      assert list == ServiceList(old(services), name);
      if g !in list {
        services := services[key := Current(list + [g])];
        Save();
      }
    }

    /**
     * `check_and_assign_gmail`: the service's latest alias if it has one,
     * else the first pool alias it has not been given, now assigned to it,
     * else `NoneLeft`.
     */
    method CheckAndAssignGmail(name: string) returns (existed: bool, gmail: string)
      modifies this
      ensures Checked(existed, gmail, services) == CheckAndAssign(old(services), old(gmails), name)
      ensures document == if services == old(services) then old(document) else Some(services)
      ensures gmails == old(gmails) && poolFile == old(poolFile)
    {
      var key := Lower(name);
      ServiceListCaseInsensitive(services, name);
      var existing := LatestServiceGmail(key);
      if existing.Some? && existing.value != "" {
        return true, existing.value;
      }
      var unused := GetUnusedGmailForService(key);
      if unused.Some? && unused.value != "" {
        AssignGmailToService(key, unused.value);
        return false, unused.value;
      }
      return false, NoneLeft;
    }

    /**
     * `generate_domain_names`: for a Gmail address, builds every dotted
     * variant in enumeration order, writes them to the pool file, makes them
     * the pool, clears the record and writes it. Any other address is refused
     * and nothing changes.
     */
    method GenerateDomainNames(email: string) returns (r: Result<nat>)
      modifies this
      ensures !EndsWith(email, GmailSuffix) ==>
        && r == Failure(NotGmail)
        && gmails == old(gmails) && services == old(services)
        && poolFile == old(poolFile) && document == old(document)
      ensures EndsWith(email, GmailSuffix) ==>
        && gmails == GeneratedPool(email)
        && r == Success(|gmails|)
        && poolFile == Some(PoolText(gmails))
        && services == map[] && document == Some(map[])
      ensures EndsWith(email, GmailSuffix) ==>
        r == Success(if LocalPart(email) == "" then 1 else Pow2(|LocalPart(email)| - 1))
      ensures EndsWith(email, GmailSuffix) && Storable(email) ==> LoadGmails(poolFile.value) == gmails
    {
      if !EndsWith(email, GmailSuffix) {
        return Failure(NotGmail);
      }
      var generated := DottedAddresses(email);
      var text := PoolFileText(generated);
      PoolCount(email);
      if Storable(email) {
        GeneratedPoolRoundTrip(email);
      }
      poolFile := Some(text);
      gmails := generated;
      services := map[];
      Save();
      return Success(|generated|);
    }
  
    /**
     * The generating loops of `generate_domain_names`: the address itself,
     * then for one dot, two dots, ... up to one per boundary, every placement
     * in `combinations` order.
     */
    static method DottedAddresses(email: string) returns (generated: seq<string>)
      ensures generated == GeneratedPool(email)
    {
      var username := LocalPart(email);
      var n := |username|;
      generated := [email];
      var i := 1;
      while i < n
        invariant 1 <= i && (i <= n || i == 1)
        invariant AllValidCuts(Placements(n, i - 1), n)
        invariant generated == [email] + Variants(username, Placements(n, i - 1))
      {
        var variants := VariantsOf(username, i);
        PlacementsStep(username, i);
        generated := generated + variants;
        i := i + 1;
      }
      assert Placements(n, i - 1) == AllPlacements(n);
    }

    /**
     * The middle loop of `generate_domain_names`: one address per placement
     * of `count` dots, in `combinations` order, each built by `InsertDots`.
     */
    static method VariantsOf(username: string, count: nat) returns (vs: seq<string>)
      requires 1 <= count
      ensures AllValidCuts(Combos(1, |username|, count), |username|)
      ensures vs == Variants(username, Combos(1, |username|, count))
    {
      var n := |username|;
      var positions := Combos(1, n, count);
      CombosValidCuts(n, count);
      vs := [];
      var j := 0;
      while j < |positions|
        invariant 0 <= j <= |positions|
        invariant AllValidCuts(positions, n)
        invariant vs == Variants(username, positions[..j])
      {
        var pos := positions[j];
        var newUsername := InsertDots(username, pos);
        assert positions[..j + 1] == positions[..j] + [pos];
        VariantsAppend(username, positions[..j], [pos]);
        vs := vs + [newUsername + GmailSuffix];
        j := j + 1;
      }
      assert positions[..j] == positions;
    }

    /** The pool file's text as `generate_domain_names` writes it, one line per alias. */
    static method PoolFileText(generated: seq<string>) returns (text: string)
      ensures text == PoolText(generated)
    {
      text := "";
      var k := 0;
      while k < |generated|
        invariant 0 <= k <= |generated|
        invariant text == PoolText(generated[..k])
      {
        assert generated[..k + 1] == generated[..k] + [generated[k]];
        PoolTextSnoc(generated[..k], generated[k]);
        text := text + generated[k] + "\n";
        k := k + 1;
      }
      assert generated[..k] == generated;
    }
  }
}
