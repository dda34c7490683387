/**
 * The assignment record: every (lower-cased) service name maps to the
 * aliases assigned to it, oldest first, so that the last one is the
 * service's current alias. Documents written by older versions hold a
 * single alias as a bare string instead of a list.
 *
 * These are the specification functions the `Database` class is proved
 * against, and the lemmas about them.
 */
module ServiceStore {
  import opened Wrappers
  import opened Text

  /** One value of the JSON document: a bare alias (old format) or a list of aliases. */
  datatype Entry = Legacy(alias: string) | Current(aliases: seq<string>)

  type Services = map<string, Entry>

  /** The aliases an entry stands for: a bare string counts as a list of one. */
  function Aliases(e: Entry): seq<string> {
    match e
    case Legacy(a) => [a]
    case Current(l) => l
  }

  /** The elements of a list, as Python's `set(list)`. */
  function ToSet(s: seq<string>): set<string> {
    set x | x in s
  }

  /** The aliases recorded for a service, looked up by its lower-cased name; none for an unknown service. */
  function ServiceList(m: Services, name: string): seq<string> {
    var key := Lower(name);
    if key in m then Aliases(m[key]) else []
  }

  /** The alias assigned last to a service, if it has any. */
  function Latest(m: Services, name: string): Option<string> {
    var l := ServiceList(m, name);
    if l != [] then Some(l[|l| - 1]) else None
  }

  /** Service names are case-insensitive: a lower-cased name finds the same aliases. */
  lemma ServiceListCaseInsensitive(m: Services, name: string)
    ensures ServiceList(m, Lower(name)) == ServiceList(m, name)
    ensures Latest(m, Lower(name)) == Latest(m, name)
  {
    LowerIdempotent(name);
  }

  /** Every alias assigned to any service, whatever the entry's format. */
  function UsedSet(m: Services): set<string> {
    set k, a | k in m && a in Aliases(m[k]) :: a
  }

  /** The aliases assigned to the services in `keys`. */
  function UsedAmong(m: Services, keys: set<string>): set<string> {
    set k, a | k in m && k in keys && a in Aliases(m[k]) :: a
  }

  /** Collecting the services one at a time: adding a service adds exactly its aliases. */
  lemma UsedAmongAdd(m: Services, keys: set<string>, k: string)
    requires k in m
    ensures UsedAmong(m, keys + {k}) == UsedAmong(m, keys) + ToSet(Aliases(m[k]))
  {
    forall a | a in ToSet(Aliases(m[k])) ensures a in UsedAmong(m, keys + {k}) {
      assert k in m && k in keys + {k} && a in Aliases(m[k]);
    }
  }

  /** Having collected every service, the aliases collected are all the used ones. */
  lemma UsedAmongAll(m: Services)
    ensures UsedAmong(m, {}) == {}
    ensures UsedAmong(m, m.Keys) == UsedSet(m)
  {
  }

  /**
   * Where the first alias of `pool` outside `excluded` sits, or `|pool|`
   * when every alias is excluded: everything before it is excluded and it is not.
   */
  function FirstOutsideAt(pool: seq<string>, excluded: set<string>): (i: nat)
    ensures i <= |pool|
    ensures forall j :: 0 <= j < i ==> pool[j] in excluded
    ensures i < |pool| ==> pool[i] !in excluded
    decreases |pool|
  {
    if pool == [] || pool[0] !in excluded then 0 else 1 + FirstOutsideAt(pool[1..], excluded)
  }

  /** The position of the first alias outside `excluded` is the only one with that description. */
  lemma {:induction false} FirstOutsideAtUnique(pool: seq<string>, excluded: set<string>, i: nat)
    requires i <= |pool|
    requires forall j :: 0 <= j < i ==> pool[j] in excluded
    requires i < |pool| ==> pool[i] !in excluded
    ensures FirstOutsideAt(pool, excluded) == i
  {
    if i > 0 {
      assert pool[0] in excluded;
      assert forall j :: 0 <= j < |pool| - 1 ==> pool[1..][j] == pool[j + 1];
      FirstOutsideAtUnique(pool[1..], excluded, i - 1);
    }
  }

  /** The first alias outside `excluded` sits no later than any alias outside it. */
  lemma FirstOutsideAtBound(pool: seq<string>, excluded: set<string>, i: nat)
    requires i < |pool| && pool[i] !in excluded
    ensures FirstOutsideAt(pool, excluded) <= i
  {
  }

  /** The first alias of the pool, in pool order, that is not in `excluded`, if there is one. */
  function FirstOutside(pool: seq<string>, excluded: set<string>): (r: Option<string>)
    ensures r.None? <==> forall j :: 0 <= j < |pool| ==> pool[j] in excluded
    ensures r.Some? ==> r.value in pool && r.value !in excluded
  {
    var i := FirstOutsideAt(pool, excluded);
    if i < |pool| then Some(pool[i]) else None
  }

  /** `get_unused_gmail`: the first pool alias no service uses. */
  function UnusedAnywhere(m: Services, pool: seq<string>): Option<string> {
    FirstOutside(pool, UsedSet(m))
  }

  /** `get_unused_gmail_for_service`: the first pool alias this service has not been given. */
  function UnusedFor(m: Services, pool: seq<string>, name: string): Option<string> {
    FirstOutside(pool, ToSet(ServiceList(m, name)))
  }

  /** An alias unused anywhere is unused for every service, so a global search never beats the per-service one. */
  lemma UnusedAnywhereIsUnusedFor(m: Services, pool: seq<string>, name: string)
    ensures UnusedAnywhere(m, pool).Some? ==> UnusedFor(m, pool, name).Some?
    ensures UnusedAnywhere(m, pool).Some? ==>
      FirstOutsideAt(pool, ToSet(ServiceList(m, name))) <= FirstOutsideAt(pool, UsedSet(m))
  {
    var key := Lower(name);
    var mine := ToSet(ServiceList(m, name));
    forall a | a in mine ensures a in UsedSet(m) {
      assert key in m && a in Aliases(m[key]);
    }
    var i := FirstOutsideAt(pool, UsedSet(m));
    if i < |pool| {
      FirstOutsideAtBound(pool, mine, i);
    }
  }

  /**
   * `assign_gmail_to_service`: the service's entry becomes a list (created
   * empty for a new service, converted from a bare string otherwise) and
   * `g` is appended to it unless it is already there.
   */
  function Assigned(m: Services, name: string, g: string): (r: Services)
    ensures r.Keys == m.Keys + {Lower(name)}
    ensures forall k :: k in m && k != Lower(name) ==> r[k] == m[k]
    ensures r[Lower(name)].Current?
  {
    var l := ServiceList(m, name);
    m[Lower(name) := Current(if g in l then l else l + [g])]
  }

  /** After an assignment the service holds `g`, as its latest alias when `g` is new to it, and keeps the aliases it had, in order. */
  lemma AssignedList(m: Services, name: string, g: string)
    ensures ServiceList(Assigned(m, name, g), name) ==
      if g in ServiceList(m, name) then ServiceList(m, name) else ServiceList(m, name) + [g]
    ensures g in ServiceList(Assigned(m, name, g), name)
    ensures g !in ServiceList(m, name) ==> Latest(Assigned(m, name, g), name) == Some(g)
  {
  }

  /** Assigning an alias a service already holds changes nothing a lookup can see. */
  lemma AssignedKnown(m: Services, name: string, g: string)
    requires g in ServiceList(m, name)
    ensures ServiceList(Assigned(m, name, g), name) == ServiceList(m, name)
    ensures forall n :: ServiceList(Assigned(m, name, g), n) == ServiceList(m, n)
  {
    forall n ensures ServiceList(Assigned(m, name, g), n) == ServiceList(m, n) {
      AssignedOthers(m, name, g, n);
    }
  }

  /** Other services are untouched by an assignment. */
  lemma AssignedOthers(m: Services, name: string, g: string, other: string)
    ensures Lower(other) != Lower(name) ==> ServiceList(Assigned(m, name, g), other) == ServiceList(m, other)
  {
  }

  /** Assignment is idempotent: assigning the same alias again changes nothing. */
  lemma AssignedIdempotent(m: Services, name: string, g: string)
    ensures Assigned(Assigned(m, name, g), name, g) == Assigned(m, name, g)
  {
    AssignedList(m, name, g);
  }

  /** The aliases in use afterwards are those in use before, and `g`. */
  lemma AssignedUsed(m: Services, name: string, g: string)
    ensures UsedSet(Assigned(m, name, g)) == UsedSet(m) + {g}
  {
    var r := Assigned(m, name, g);
    var key := Lower(name);
    AssignedList(m, name, g);
    forall a | a in UsedSet(r) ensures a in UsedSet(m) + {g} {
      var k :| k in r && a in Aliases(r[k]);
      if k == key && a != g {
        assert a in ServiceList(m, name);
        assert k in m && a in Aliases(m[k]);
      } else if k != key {
        assert k in m && a in Aliases(m[k]);
      }
    }
    forall a | a in UsedSet(m) + {g} ensures a in UsedSet(r) {
      if a == g {
        assert key in r && g in Aliases(r[key]);
      } else {
        var k :| k in m && a in Aliases(m[k]);
        if k == key {
          assert a in ServiceList(m, name);
        }
        assert k in r && a in Aliases(r[k]);
      }
    }
  }

  /** No list holds an alias twice. */
  predicate NoDuplicates(l: seq<string>) {
    forall i, j :: 0 <= i < j < |l| ==> l[i] != l[j]
  }

  /** The record's invariant: no service was given the same alias twice. */
  predicate WellFormed(m: Services) {
    forall k :: k in m ==> NoDuplicates(Aliases(m[k]))
  }

  /** Assignment keeps every service's aliases free of repeats. */
  lemma AssignedWellFormed(m: Services, name: string, g: string)
    requires WellFormed(m)
    ensures WellFormed(Assigned(m, name, g))
  {
    var r := Assigned(m, name, g);
    var l := ServiceList(m, name);
    AssignedList(m, name, g);
    assert NoDuplicates(l);
    forall k | k in r ensures NoDuplicates(Aliases(r[k])) {
      if k == Lower(name) && g !in l {
        var n := l + [g];
        forall i, j | 0 <= i < j < |n| ensures n[i] != n[j] {
          if j == |l| {
            assert n[i] == l[i] && l[i] in l;
          }
        }
      }
    }
  }

  /** True when some entry is still a bare string. */
  predicate HasLegacy(m: Services) {
    exists k :: k in m && m[k].Legacy?
  }

  /** `_migrate_data_if_needed`: every bare-string entry becomes a list of that one alias. */
  function Migrated(m: Services): (r: Services)
    ensures r.Keys == m.Keys
    ensures !HasLegacy(r)
  {
    map k | k in m :: Current(Aliases(m[k]))
  }

  /** Migration changes the record exactly when it holds an old-format entry. */
  lemma MigratedUnchanged(m: Services)
    ensures Migrated(m) == m <==> !HasLegacy(m)
  {
    if !HasLegacy(m) {
      forall k | k in m ensures Migrated(m)[k] == m[k] {
        assert m[k].Current?;
      }
    }
  }

  /** Migration changes nothing a lookup can see: every service keeps its aliases, and so does the used set. */
  lemma MigratedSame(m: Services)
    ensures forall n :: ServiceList(Migrated(m), n) == ServiceList(m, n)
    ensures UsedSet(Migrated(m)) == UsedSet(m)
    ensures WellFormed(m) ==> WellFormed(Migrated(m))
  {
    var r := Migrated(m);
    forall a | a in UsedSet(m) ensures a in UsedSet(r) {
      var k :| k in m && a in Aliases(m[k]);
      assert k in r && a in Aliases(r[k]);
    }
  }

  /** Migrating twice is migrating once. */
  lemma MigratedIdempotent(m: Services)
    ensures Migrated(Migrated(m)) == Migrated(m)
  {
    MigratedUnchanged(Migrated(m));
  }

  /** What `check_and_assign_gmail` answers with when the pool has nothing left for the service. */
  const NoneLeft: string := "Нет доступных почт"

  /** The outcome of `check_and_assign_gmail`: whether a binding existed, the alias (or `NoneLeft`), and the record afterwards. */
  datatype Checked = Checked(existed: bool, gmail: string, services: Services)

  /**
   * `check_and_assign_gmail`: the service's latest alias if it has one;
   * otherwise the first pool alias the service has not been given, which is
   * then assigned to it; otherwise `NoneLeft`. As in Python, an empty alias
   * counts as no alias.
   */
  function CheckAndAssign(m: Services, pool: seq<string>, name: string): (r: Checked)
    ensures r.existed <==> Latest(m, name).Some? && Latest(m, name).value != ""
    ensures r.existed ==> r.services == m && Latest(m, name) == Some(r.gmail)
    ensures !r.existed && r.services != m ==>
      && r.gmail != ""
      && r.gmail in pool
      && r.gmail !in ServiceList(m, name)
      && UnusedFor(m, pool, name) == Some(r.gmail)
      && r.services == Assigned(m, name, r.gmail)
      && Latest(r.services, name) == Some(r.gmail)
    ensures !r.existed && r.services == m ==>
      r.gmail == NoneLeft && (UnusedFor(m, pool, name).None? || UnusedFor(m, pool, name) == Some(""))
  {
    var key := Lower(name);
    ServiceListCaseInsensitive(m, name);
    var existing := Latest(m, key);
    if existing.Some? && existing.value != "" then
      Checked(true, existing.value, m)
    else
      var unused := UnusedFor(m, pool, key);
      if unused.Some? && unused.value != "" then
        AssignedList(m, key, unused.value);
        ServiceListCaseInsensitive(Assigned(m, key, unused.value), name);
        assert |ServiceList(Assigned(m, key, unused.value), name)| == |ServiceList(m, name)| + 1;
        Checked(false, unused.value, Assigned(m, key, unused.value))
      else
        Checked(false, NoneLeft, m)
  }

  /**
   * Asking again gives the same answer: once a service has an alias, every
   * later request surfaces that alias as an existing binding and changes
   * nothing, and an exhausted pool stays exhausted.
   */
  lemma CheckAndAssignSettles(m: Services, pool: seq<string>, name: string)
    ensures var r1 := CheckAndAssign(m, pool, name);
      var r2 := CheckAndAssign(r1.services, pool, name);
      && (r1.existed ==> r2 == r1)
      && (!r1.existed && r1.services != m ==> r2 == Checked(true, r1.gmail, r1.services))
      && (r1.services == m ==> r2 == r1)
  {
  }

  /** A request keeps the record free of repeated aliases and keeps every other service as it was. */
  lemma CheckAndAssignWellFormed(m: Services, pool: seq<string>, name: string, other: string)
    requires WellFormed(m)
    ensures WellFormed(CheckAndAssign(m, pool, name).services)
    ensures Lower(other) != Lower(name) ==>
      ServiceList(CheckAndAssign(m, pool, name).services, other) == ServiceList(m, other)
  {
    var r := CheckAndAssign(m, pool, name);
    if r.services != m {
      AssignedWellFormed(m, name, r.gmail);
      AssignedOthers(m, name, r.gmail, other);
    }
  }
}
