/** The semantic diff of two snapshots (backend/app/diff/engine.py, with the
    cluster membership of backend/app/diagnostics/checks/_common.py). */
module SnapshotDiff {
  import opened Basics
  import T = Text

  /** A property value. `Ids` is a cluster's derived membership, shown sorted. */
  datatype Value =
    | Null
    | Bool(b: bool)
    | Num(n: real)
    | Text(s: string)
    | List(items: seq<Value>)
    | Dict(fields: map<string, Value>)
    | Ids(ids: set<string>)

  datatype Relation = Relation(kind: string, targetId: string)

  datatype Resource = Resource(id: string, kind: string, name: string, parentId: string, relations: seq<Relation>,
                               properties: map<string, Value>)

  /** How a list item is rendered as an id. */
  type Render = Value -> string

  datatype PropertyChange = PropertyChange(before: Value, after: Value)

  datatype Change =
    | Added(id: string, kind: string, name: string)
    | Removed(id: string, kind: string, name: string)
    | Modified(id: string, kind: string, properties: map<string, PropertyChange>)

  function Get(r: Resource, prop: string): Value { if prop in r.properties then r.properties[prop] else Null }

  // ---- cluster membership ------------------------------------------------

  function MemberOf(relations: seq<Relation>): Option<string> {
    if relations == [] then None
    else if relations[0].kind == "member_of" then Some(relations[0].targetId)
    else MemberOf(relations[1..])
  }

  /** The cluster a host belongs to; without a list of clusters any parent
      will do, and a bare name stays a name. */
  function HostClusterId(h: Resource, clusters: Option<set<string>>, names: map<string, string>): Option<string> {
    if MemberOf(h.relations).Some? then MemberOf(h.relations)
    else if h.parentId != "" && (clusters.None? || h.parentId in clusters.value) then Some(h.parentId)
    else
      var cluster := Get(h, "cluster");
      if !cluster.Text? || cluster.s == "" then None
      else if clusters.Some? && cluster.s in clusters.value then Some(cluster.s)
      else if cluster.s in names then Some(names[cluster.s])
      else Some(cluster.s)
  }

  function ClusterIds(rs: seq<Resource>): set<string> { set r | r in rs && r.kind == "cluster" :: r.id }

  /** Cluster ids by name; of clusters with one name the last wins. */
  function ClusterNames(rs: seq<Resource>): map<string, string> {
    if rs == [] then map[]
    else
      var last := rs[|rs| - 1];
      var names := ClusterNames(rs[..|rs| - 1]);
      if last.kind == "cluster" then names[last.name := last.id] else names
  }

  /** The members of a cluster, from its own list and from the hosts. */
  function Members(rs: seq<Resource>, cluster: string, str: Render): set<string> {
    var ids, names := Some(ClusterIds(rs)), ClusterNames(rs);
    (set r, v | r in rs && r.kind == "cluster" && r.id == cluster && Get(r, "hosts").List? && v in Get(r, "hosts").items :: str(v)) +
    (set h | h in rs && h.kind == "host" && HostClusterId(h, ids, names) == Some(cluster) :: h.id)
  }

  /** Resources by id; of resources with one id the last wins. */
  function ById(rs: seq<Resource>): map<string, Resource> {
    if rs == [] then map[] else ById(rs[..|rs| - 1])[rs[|rs| - 1].id := rs[|rs| - 1]]
  }

  // ---- properties --------------------------------------------------------

  function Properties(kind: string): seq<string> {
    match kind
    case "host" => ["connectionState", "powerState", "vmkernelAdapters", "maintenanceMode", "cluster", "version", "build",
                    "lockdownMode", "ntpServers", "dnsServers", "bootTime", "model", "memoryBytes", "numCpuCores",
                    "physicalNics", "standardSwitches"]
    case "vm" => ["powerState", "networks", "datastores", "disks", "nics", "host", "numCpu", "memoryMB", "hardwareVersion",
                  "template", "snapshotCount", "resourcePool", "folder", "cpuReservationMhz", "memReservationMB",
                  "toolsStatus", "guestIp", "annotation", "bootTime"]
    case "cluster" => ["drsEnabled", "haEnabled", "vsanEnabled", "hosts", "drsAutomationLevel", "haAdmissionControl",
                       "evcMode", "ruleCount"]
    case "datastore" => ["accessible", "capacity", "freeSpace", "hosts", "maintenanceMode", "multipleHostAccess"]
    case "network" => ["vlan", "switch", "numPorts", "hosts"]
    case "vcenter" => ["version", "build", "apiVersion"]
    case _ => []
  }

  function Tracked(kind: string): seq<string> { ["name"] + Properties(kind) }

  /** A missing side of these is unknown, not a change. */
  const BOTH_SIDES_REQUIRED: set<string> :=
    {"bootTime", "vmkernelAdapters", "physicalNics", "standardSwitches", "ntpServers", "dnsServers", "lockdownMode",
     "version", "build", "disks", "nics", "snapshotCount", "vsanEnabled", "hosts"}

  function ValueOf(r: Resource, prop: string, rs: seq<Resource>, str: Render): Value {
    if prop == "name" then Text(r.name)
    else if r.kind == "host" && prop == "cluster" then
      var id := HostClusterId(r, None, map[]);
      if id.Some? then Text(id.value) else Null
    else if r.kind == "cluster" && prop == "hosts" then Ids(Members(rs, r.id, str))
    else Get(r, prop)
  }

  /** Equal up to the order of a list. */
  predicate SameValue(a: Value, b: Value) {
    if a.List? && b.List? then multiset(a.items) == multiset(b.items) else a == b
  }

  predicate Empty(v: Value) { v.Null? || (v.List? && v.items == []) || (v.Ids? && v.ids == {}) }

  // ---- free space --------------------------------------------------------

  function Clamp(x: real): real { if x < 0.0 then 0.0 else if x > 1.0 then 1.0 else x }

  /** To one decimal; a half goes to the even neighbour. */
  function ToTenths(x: real): real {
    var tenths := (x * 10.0).Floor;
    var rest := x * 10.0 - tenths as real;
    (if rest < 0.5 || (rest == 0.5 && tenths % 2 == 0) then tenths else tenths + 1) as real / 10.0
  }

  /** Used percentage to one decimal, or None when it is unknown. */
  function UsagePct(r: Resource): Option<real> {
    var capacity, free := Get(r, "capacity"), Get(r, "freeSpace");
    if !capacity.Num? || capacity.n <= 0.0 || !free.Num? then None
    else Some(ToTenths(Clamp(1.0 - free.n / capacity.n) * 100.0))
  }

  function Band(pct: real): int { if pct >= 95.0 then 2 else if pct >= 85.0 then 1 else 0 }

  predicate FreeSpaceMoved(a: Resource, b: Resource) {
    var x, y := UsagePct(a), UsagePct(b);
    if x.None? || y.None? then x != y
    else y.value - x.value >= 5.0 || x.value - y.value >= 5.0 || Band(x.value) != Band(y.value)
  }

  function Pct(p: Option<real>): Value { if p.None? then Null else Num(p.value) }

  // ---- one resource ------------------------------------------------------

  /** Whether a property counts as changed. */
  predicate Differs(prop: string, o: Value, n: Value) {
    !SameValue(o, n) && !(Empty(o) && Empty(n)) && !(prop in BOTH_SIDES_REQUIRED && (o.Null? || n.Null?))
  }

  /** Free space is reported by its usage, and only when that moved. */
  predicate Banded(kind: string, prop: string) { kind == "datastore" && prop == "freeSpace" }

  predicate Reported(a: Resource, b: Resource, prop: string, from: seq<Resource>, upto: seq<Resource>, str: Render) {
    Differs(prop, ValueOf(a, prop, from, str), ValueOf(b, prop, upto, str))
    && (Banded(b.kind, prop) ==> FreeSpaceMoved(a, b))
  }

  /** The changes with one property more, if it is reported. */
  function WithProperty(changes: map<string, PropertyChange>, a: Resource, b: Resource, prop: string,
                        from: seq<Resource>, upto: seq<Resource>, str: Render): map<string, PropertyChange>
  {
    if !Reported(a, b, prop, from, upto, str) then changes
    else
      var changed := changes[prop := PropertyChange(ValueOf(a, prop, from, str), ValueOf(b, prop, upto, str))];
      if Banded(b.kind, prop) then changed["usagePct" := PropertyChange(Pct(UsagePct(a)), Pct(UsagePct(b)))] else changed
  }

  /** The property changes of a resource that kept its id and its type. */
  function PropertyChanges(a: Resource, b: Resource, props: seq<string>, from: seq<Resource>, upto: seq<Resource>,
                           str: Render)
    : map<string, PropertyChange>
  {
    if props == [] then map[]
    else WithProperty(PropertyChanges(a, b, props[..|props| - 1], from, upto, str), a, b, props[|props| - 1], from, upto, str)
  }

  lemma NextProperty(a: Resource, b: Resource, props: seq<string>, i: nat, from: seq<Resource>, upto: seq<Resource>,
                     str: Render)
    requires i < |props|
    ensures PropertyChanges(a, b, props[..i + 1], from, upto, str) ==
            WithProperty(PropertyChanges(a, b, props[..i], from, upto, str), a, b, props[i], from, upto, str)
  {
    assert props[..i + 1][..i] == props[..i];
  }

  /** What the changes of a resource are: each tracked property that is reported,
      once, with its value on either side; and the usage of a datastore whose
      free space is reported. */
  lemma {:induction false} ChangesExactly(a: Resource, b: Resource, props: seq<string>, prop: string,
                                          from: seq<Resource>, upto: seq<Resource>, str: Render)
    requires "usagePct" !in props
    ensures var p := PropertyChanges(a, b, props, from, upto, str);
            && (prop != "usagePct" ==>
                  && (prop in p <==> prop in props && Reported(a, b, prop, from, upto, str))
                  && (prop in p ==> p[prop] == PropertyChange(ValueOf(a, prop, from, str), ValueOf(b, prop, upto, str))))
            && ("usagePct" in p <==>
                  b.kind == "datastore" && "freeSpace" in props && Reported(a, b, "freeSpace", from, upto, str))
            && ("usagePct" in p ==> p["usagePct"] == PropertyChange(Pct(UsagePct(a)), Pct(UsagePct(b))))
    decreases |props|
  {
    if props != [] {
      var n := |props| - 1;
      assert props == props[..n] + [props[n]];
      ChangesExactly(a, b, props[..n], prop, from, upto, str);
    }
  }

  method DiffProperties(a: Resource, b: Resource, tracked: seq<string>, from: seq<Resource>, upto: seq<Resource>,
                        str: Render)
    returns (props: map<string, PropertyChange>)
    ensures props == PropertyChanges(a, b, tracked, from, upto, str)
  {
    props := map[];
    for i := 0 to |tracked|
      invariant props == PropertyChanges(a, b, tracked[..i], from, upto, str)
    {
      NextProperty(a, b, tracked, i, from, upto, str);
      var prop := tracked[i];
      var o, n := ValueOf(a, prop, from, str), ValueOf(b, prop, upto, str);
      if SameValue(o, n) || (Empty(o) && Empty(n)) || (prop in BOTH_SIDES_REQUIRED && (o.Null? || n.Null?)) {
        continue;
      }
      if b.kind == "datastore" && prop == "freeSpace" {
        if FreeSpaceMoved(a, b) {
          props := props[prop := PropertyChange(o, n)]["usagePct" := PropertyChange(Pct(UsagePct(a)), Pct(UsagePct(b)))];
        }
        continue;
      }
      props := props[prop := PropertyChange(o, n)];
    }
    assert tracked[..|tracked|] == tracked;
  }

  method DiffModified(a: Resource, b: Resource, from: seq<Resource>, upto: seq<Resource>, str: Render)
    returns (change: Option<Change>)
    ensures var p := PropertyChanges(a, b, Tracked(b.kind), from, upto, str);
            change == if p == map[] then None else Some(Modified(b.id, b.kind, p))
  {
    var props := DiffProperties(a, b, Tracked(b.kind), from, upto, str);
    change := if props == map[] then None else Some(Modified(b.id, b.kind, props));
  }

  // ---- all resources -----------------------------------------------------

  /** What the diff says about one id. */
  function ChangesAt(id: string, from: seq<Resource>, upto: seq<Resource>, str: Render): set<Change> {
    var before, after := ById(from), ById(upto);
    if id in after && id !in before then {Added(id, after[id].kind, after[id].name)}
    else if id in before && id !in after then {Removed(id, before[id].kind, before[id].name)}
    else if id !in before then {}
    else if before[id].kind != after[id].kind then
      {Removed(id, before[id].kind, before[id].name), Added(id, after[id].kind, after[id].name)}
    else
      var p := PropertyChanges(before[id], after[id], Tracked(after[id].kind), from, upto, str);
      if p == map[] then {} else {Modified(id, after[id].kind, p)}
  }

  /** The whole diff. */
  function Changes(from: seq<Resource>, upto: seq<Resource>, str: Render): set<Change> {
    set id, c | id in ById(from).Keys + ById(upto).Keys && c in ChangesAt(id, from, upto, str) :: c
  }

  ghost function ChangesOf(ids: set<string>, from: seq<Resource>, upto: seq<Resource>, str: Render): set<Change> {
    set id, c | id in ids && c in ChangesAt(id, from, upto, str) :: c
  }

  ghost function Elements(changes: seq<Change>): set<Change> { set c | c in changes }

  lemma OneMoreId(ids: set<string>, id: string, changes: seq<Change>, more: seq<Change>,
                  from: seq<Resource>, upto: seq<Resource>, str: Render)
    requires Elements(changes) == ChangesOf(ids, from, upto, str)
    requires Elements(more) == ChangesAt(id, from, upto, str)
    ensures Elements(changes + more) == ChangesOf(ids + {id}, from, upto, str)
  {
    forall c ensures c in Elements(changes + more) <==> c in Elements(changes) || c in Elements(more) {
    }
    forall c ensures c in ChangesOf(ids + {id}, from, upto, str) <==>
                     c in ChangesOf(ids, from, upto, str) || c in ChangesAt(id, from, upto, str) {
      if c in ChangesAt(id, from, upto, str) {
        assert id in ids + {id};
      }
    }
  }

  /** The three passes of the diff: what is new, what is gone, what stayed. */
  method Compare(from: seq<Resource>, upto: seq<Resource>, str: Render) returns (changes: seq<Change>)
    ensures Elements(changes) == Changes(from, upto, str)
  {
    var before, after := ById(from), ById(upto);
    changes := [];
    var arrived, gone, stayed := after.Keys - before.Keys, before.Keys - after.Keys, before.Keys * after.Keys;
    ghost var done: set<string> := {};
    var todo := arrived;
    while todo != {}
      invariant todo <= arrived && done == arrived - todo
      invariant Elements(changes) == ChangesOf(done, from, upto, str)
      decreases todo
    {
      var id :| id in todo;
      var more := [Added(id, after[id].kind, after[id].name)];
      OneMoreId(done, id, changes, more, from, upto, str);
      changes, done, todo := changes + more, done + {id}, todo - {id};
    }
    todo := gone;
    while todo != {}
      invariant todo <= gone && done == arrived + (gone - todo)
      invariant Elements(changes) == ChangesOf(done, from, upto, str)
      decreases todo
    {
      var id :| id in todo;
      var more := [Removed(id, before[id].kind, before[id].name)];
      OneMoreId(done, id, changes, more, from, upto, str);
      changes, done, todo := changes + more, done + {id}, todo - {id};
    }
    todo := stayed;
    while todo != {}
      invariant todo <= stayed && done == arrived + gone + (stayed - todo)
      invariant Elements(changes) == ChangesOf(done, from, upto, str)
      decreases todo
    {
      var id :| id in todo;
      ByIdKeyed(from, id);
      ByIdKeyed(upto, id);
      var more := DiffOne(before[id], after[id], from, upto, str);
      OneMoreId(done, id, changes, more, from, upto, str);
      changes, done, todo := changes + more, done + {id}, todo - {id};
    }
    assert done == before.Keys + after.Keys;
  }

  /** The changes of a resource present on both sides. */
  method DiffOne(a: Resource, b: Resource, from: seq<Resource>, upto: seq<Resource>,
                 str: Render) returns (more: seq<Change>)
    requires a.id == b.id && a.id in ById(from) && ById(from)[a.id] == a && b.id in ById(upto) && ById(upto)[b.id] == b
    ensures Elements(more) == ChangesAt(a.id, from, upto, str)
  {
    if a.kind != b.kind {
      return [Removed(a.id, a.kind, a.name), Added(b.id, b.kind, b.name)];
    }
    var change := DiffModified(a, b, from, upto, str);
    return if change.Some? then [change.value] else [];
  }

  lemma {:induction false} ByIdKeyed(rs: seq<Resource>, id: string)
    ensures id in ById(rs) ==> ById(rs)[id].id == id && ById(rs)[id] in rs
    ensures id in ById(rs) <==> exists i :: 0 <= i < |rs| && rs[i].id == id
    decreases |rs|
  {
    if rs != [] {
      var n := |rs| - 1;
      ByIdKeyed(rs[..n], id);
      if i :| 0 <= i < |rs| && rs[i].id == id {
        assert i < n ==> rs[..n][i].id == id;
      }
      if id in ById(rs[..n]) {
        var i :| 0 <= i < |rs[..n]| && rs[..n][i].id == id;
        assert rs[i].id == id;
      }
      assert rs[n].id in ById(rs);
    }
  }

  lemma ChangesAreOfTheirId(id: string, from: seq<Resource>, upto: seq<Resource>, str: Render)
    ensures forall c :: c in ChangesAt(id, from, upto, str) ==> c.id == id
  {
  }

  /** Every id is classified at most once, unless the resource changed its type;
      then it is removed as what it was and added as what it is. In any case no
      two changes agree in id and type, so the sorted output is unique. */
  lemma ClassifiedOnce(from: seq<Resource>, upto: seq<Resource>, str: Render, c: Change, d: Change)
    requires c in Changes(from, upto, str) && d in Changes(from, upto, str) && c.id == d.id && c != d
    ensures c.id in ById(from) && c.id in ById(upto) && ById(from)[c.id].kind != ById(upto)[c.id].kind
    ensures c.kind != d.kind
    ensures (c.Added? && d.Removed?) || (c.Removed? && d.Added?)
  {
    var i :| i in ById(from).Keys + ById(upto).Keys && c in ChangesAt(i, from, upto, str);
    var j :| j in ById(from).Keys + ById(upto).Keys && d in ChangesAt(j, from, upto, str);
    ChangesAreOfTheirId(i, from, upto, str);
    ChangesAreOfTheirId(j, from, upto, str);
  }

  // ---- significance, threshold and order ---------------------------------

  datatype Significance = High | Medium | Low

  function Rank(s: Significance): nat {
    match s
    case High => 0
    case Medium => 1
    case Low => 2
  }

  const HIGH: map<string, set<string>> := map[
    "host" := {"connectionState", "powerState", "vmkernelAdapters"},
    "cluster" := {"drsEnabled", "haEnabled", "vsanEnabled"},
    "datastore" := {"accessible"},
    "network" := {"vlan"}]

  const MEDIUM: map<string, set<string>> := map[
    "host" := {"maintenanceMode", "cluster", "version", "build", "lockdownMode", "ntpServers", "dnsServers", "bootTime"},
    "vm" := {"powerState", "networks", "datastores", "disks", "nics"},
    "cluster" := {"hosts", "drsAutomationLevel", "haAdmissionControl", "evcMode"},
    "datastore" := {"capacity", "hosts", "maintenanceMode"},
    "network" := {"switch"},
    "vcenter" := {"version", "build"}]

  /** Free space is high once the usage reaches the upper band. */
  function PropertySignificance(kind: string, p: map<string, PropertyChange>, prop: string): Significance {
    if prop == "name" then Medium
    else if Banded(kind, prop) then
      if "usagePct" in p && p["usagePct"].after.Num? && p["usagePct"].after.n >= 95.0 then High else Medium
    else if kind in HIGH && prop in HIGH[kind] then High
    else if kind in MEDIUM && prop in MEDIUM[kind] then Medium
    else Low
  }

  predicate HasProperty(kind: string, p: map<string, PropertyChange>, s: Significance) {
    exists prop :: prop in p && prop != "usagePct" && PropertySignificance(kind, p, prop) == s
  }

  /** A modification is as significant as its most significant property. */
  function SignificanceOf(c: Change): Significance {
    match c
    case Added(_, _, _) => Low
    case Removed(_, kind, _) => if kind in {"host", "network", "datastore"} then High else if kind == "vm" then Medium else Low
    case Modified(_, kind, p) => if HasProperty(kind, p, High) then High else if HasProperty(kind, p, Medium) then Medium else Low
  }

  /** The name a change is shown under: a modified resource's new one. */
  function NameOf(c: Change, upto: seq<Resource>): string {
    if !c.Modified? then c.name else if c.id in ById(upto) then ById(upto)[c.id].name else ""
  }

  /** Most significant first, then by type, name and id. */
  predicate Precedes(c: Change, d: Change, upto: seq<Resource>) {
    var m, n := Rank(SignificanceOf(c)), Rank(SignificanceOf(d));
    m < n || (m == n && LaterKeys(c, d, upto))
  }

  predicate LaterKeys(c: Change, d: Change, upto: seq<Resource>) {
    || T.LexLess(c.kind, d.kind)
    || (c.kind == d.kind &&
        (T.LexLess(NameOf(c, upto), NameOf(d, upto)) || (NameOf(c, upto) == NameOf(d, upto) && T.LexLess(c.id, d.id))))
  }

  lemma PrecedesTransitive(c: Change, d: Change, e: Change, upto: seq<Resource>)
    requires Precedes(c, d, upto) && Precedes(d, e, upto)
    ensures Precedes(c, e, upto)
  {
    if c.kind != d.kind && d.kind != e.kind && T.LexLess(c.kind, d.kind) && T.LexLess(d.kind, e.kind) {
      T.LexTransitive(c.kind, d.kind, e.kind);
    }
    var x, y, z := NameOf(c, upto), NameOf(d, upto), NameOf(e, upto);
    if T.LexLess(x, y) && T.LexLess(y, z) {
      T.LexTransitive(x, y, z);
    }
    if T.LexLess(c.id, d.id) && T.LexLess(d.id, e.id) {
      T.LexTransitive(c.id, d.id, e.id);
    }
  }

  lemma PrecedesTotal(c: Change, d: Change, upto: seq<Resource>)
    requires c.id != d.id || c.kind != d.kind
    ensures Precedes(c, d, upto) || Precedes(d, c, upto)
    ensures !(Precedes(c, d, upto) && Precedes(d, c, upto))
  {
    T.LexTotal(c.kind, d.kind);
    T.LexTotal(NameOf(c, upto), NameOf(d, upto));
    T.LexTotal(c.id, d.id);
  }

  /** No two changes agree in id and type. */
  ghost predicate Keyed(changes: set<Change>) {
    forall c, d :: c in changes && d in changes && c != d ==> c.id != d.id || c.kind != d.kind
  }

  predicate IsFirst(changes: set<Change>, c: Change, upto: seq<Resource>) {
    c in changes && forall d :: d in changes && d != c ==> Precedes(c, d, upto)
  }

  lemma {:induction false} FirstExists(changes: set<Change>, upto: seq<Resource>)
    requires changes != {} && Keyed(changes)
    ensures exists c :: IsFirst(changes, c, upto)
    decreases |changes|
  {
    var x := Inhabited(changes);
    var rest := changes - {x};
    if rest == {} {
      assert changes == {x};
      assert IsFirst(changes, x, upto);
    } else {
      FirstExists(rest, upto);
      var y :| IsFirst(rest, y, upto);
      PrecedesTotal(x, y, upto);
      var c := if Precedes(x, y, upto) then x else y;
      forall d | d in changes && d != c ensures Precedes(c, d, upto) {
        if c == x && d != y {
          PrecedesTransitive(x, y, d, upto);
        }
      }
      assert IsFirst(changes, c, upto);
    }
  }

  lemma FirstIsOne(changes: set<Change>, c: Change, d: Change, upto: seq<Resource>)
    requires Keyed(changes) && IsFirst(changes, c, upto) && IsFirst(changes, d, upto)
    ensures c == d
  {
    if c != d {
      PrecedesTotal(c, d, upto);
    }
  }

  function First(changes: set<Change>, upto: seq<Resource>): (c: Change)
    requires changes != {} && Keyed(changes)
    ensures IsFirst(changes, c, upto)
  {
    FirstExists(changes, upto);
    assert forall c, d :: IsFirst(changes, c, upto) && IsFirst(changes, d, upto) ==> c == d by {
      forall c, d | IsFirst(changes, c, upto) && IsFirst(changes, d, upto) ensures c == d {
        FirstIsOne(changes, c, d, upto);
      }
    }
    var c :| IsFirst(changes, c, upto);
    c
  }

  ghost predicate Sorted(out: seq<Change>, upto: seq<Resource>) {
    forall i, j :: 0 <= i < j < |out| ==> Precedes(out[i], out[j], upto)
  }

  /** The changes in order; there is one such order. */
  function InOrder(changes: set<Change>, upto: seq<Resource>): (out: seq<Change>)
    requires Keyed(changes)
    ensures Sorted(out, upto) && |out| == |changes| && forall c :: c in out <==> c in changes
    decreases |changes|
  {
    if changes == {} then []
    else
      var c := First(changes, upto);
      [c] + InOrder(changes - {c}, upto)
  }

  lemma {:induction false} OneOrder(a: seq<Change>, b: seq<Change>, upto: seq<Resource>)
    requires Sorted(a, upto) && Sorted(b, upto) && forall c :: c in a <==> c in b
    requires forall c, d :: c in a && d in a ==> !(Precedes(c, d, upto) && Precedes(d, c, upto))
    ensures a == b
    decreases |a|
  {
    assert |b| > 0 ==> b[0] in b;
    if a != [] {
      assert a[0] in b;
      SameHead(a, b, upto);
      SameTails(a, b, upto);
      forall c, d | c in a[1..] && d in a[1..] ensures !(Precedes(c, d, upto) && Precedes(d, c, upto)) {
        assert c in a && d in a;
      }
      OneOrder(a[1..], b[1..], upto);
      assert a == [a[0]] + a[1..] && b == [b[0]] + b[1..];
    }
  }

  lemma HeadComesFirst(a: seq<Change>, c: Change, upto: seq<Resource>)
    requires Sorted(a, upto) && c in a
    ensures c == a[0] || Precedes(a[0], c, upto)
  {
    var i :| 0 <= i < |a| && a[i] == c;
  }

  lemma SameHead(a: seq<Change>, b: seq<Change>, upto: seq<Resource>)
    requires Sorted(a, upto) && Sorted(b, upto) && (forall c :: c in a <==> c in b) && a != [] && b != []
    requires forall c, d :: c in a && d in a ==> !(Precedes(c, d, upto) && Precedes(d, c, upto))
    ensures a[0] == b[0]
  {
    assert a[0] in a && b[0] in b;
    HeadComesFirst(a, b[0], upto);
    HeadComesFirst(b, a[0], upto);
  }

  lemma SameTails(a: seq<Change>, b: seq<Change>, upto: seq<Resource>)
    requires Sorted(a, upto) && Sorted(b, upto) && (forall c :: c in a <==> c in b) && a != [] && b != [] && a[0] == b[0]
    requires forall c, d :: c in a && d in a ==> !(Precedes(c, d, upto) && Precedes(d, c, upto))
    ensures Sorted(a[1..], upto) && Sorted(b[1..], upto) && forall c :: c in a[1..] <==> c in b[1..]
  {
    OthersInTail(a, upto);
    OthersInTail(b, upto);
  }

  lemma OthersInTail(a: seq<Change>, upto: seq<Resource>)
    requires Sorted(a, upto) && a != []
    requires forall c, d :: c in a && d in a ==> !(Precedes(c, d, upto) && Precedes(d, c, upto))
    ensures forall c :: c in a[1..] <==> c in a && c != a[0]
  {
    assert forall j :: 1 <= j < |a| ==> a[1..][j - 1] == a[j];
    forall c ensures c in a[1..] <==> c in a && c != a[0] {
      if c in a[1..] {
        var j :| 0 <= j < |a[1..]| && a[1..][j] == c;
        assert Precedes(a[0], a[j + 1], upto);
        assert a[0] in a && c in a;
      }
    }
  }

  lemma ChangesKeyed(from: seq<Resource>, upto: seq<Resource>, str: Render)
    ensures Keyed(Changes(from, upto, str))
  {
    var changes := Changes(from, upto, str);
    forall c, d | c in changes && d in changes && c != d ensures c.id != d.id || c.kind != d.kind {
      if c.id == d.id {
        ClassifiedOnce(from, upto, str, c, d);
      }
    }
  }

  function Significant(changes: set<Change>, threshold: Significance): (r: set<Change>)
    ensures r <= changes
  {
    set c | c in changes && Rank(SignificanceOf(c)) <= Rank(threshold)
  }

  /** What the diff returns: the changes at or above the threshold, in order. */
  function Output(from: seq<Resource>, upto: seq<Resource>, str: Render, threshold: Significance): seq<Change> {
    ChangesKeyed(from, upto, str);
    InOrder(Significant(Changes(from, upto, str), threshold), upto)
  }

  method Diff(from: seq<Resource>, upto: seq<Resource>, str: Render, threshold: Significance) returns (out: seq<Change>)
    ensures out == Output(from, upto, str, threshold)
    ensures Sorted(out, upto)
    ensures forall c :: c in out <==> c in Changes(from, upto, str) && Rank(SignificanceOf(c)) <= Rank(threshold)
  {
    var changes := Compare(from, upto, str);
    ChangesKeyed(from, upto, str);
    var kept := set c | c in changes && Rank(SignificanceOf(c)) <= Rank(threshold);
    assert kept == Significant(Changes(from, upto, str), threshold) by {
      assert forall c :: c in changes <==> c in Elements(changes);
    }
    out := InOrder(kept, upto);
  }

  /** No other list has these changes in order. */
  lemma OutputIsTheOne(out: seq<Change>, from: seq<Resource>, upto: seq<Resource>, str: Render, threshold: Significance)
    requires Sorted(out, upto)
    requires forall c :: c in out <==> c in Changes(from, upto, str) && Rank(SignificanceOf(c)) <= Rank(threshold)
    ensures out == Output(from, upto, str, threshold)
  {
    ChangesKeyed(from, upto, str);
    var all := Output(from, upto, str, threshold);
    forall c, d | c in out && d in out ensures !(Precedes(c, d, upto) && Precedes(d, c, upto)) {
      if c == d {
        T.LexTotal(c.kind, c.kind);
        T.LexTotal(NameOf(c, upto), NameOf(c, upto));
        T.LexTotal(c.id, c.id);
      } else {
        PrecedesTotal(c, d, upto);
      }
    }
    OneOrder(out, all, upto);
  }

  // ---- swapping the snapshots --------------------------------------------

  function MirrorProperties(p: map<string, PropertyChange>): map<string, PropertyChange> {
    map k | k in p :: PropertyChange(p[k].after, p[k].before)
  }

  function Mirror(c: Change): Change {
    match c
    case Added(id, kind, name) => Removed(id, kind, name)
    case Removed(id, kind, name) => Added(id, kind, name)
    case Modified(id, kind, p) => Modified(id, kind, MirrorProperties(p))
  }

  lemma ReportedBothWays(a: Resource, b: Resource, prop: string, from: seq<Resource>, upto: seq<Resource>, str: Render)
    requires a.kind == b.kind
    ensures Reported(a, b, prop, from, upto, str) == Reported(b, a, prop, upto, from, str)
  {
  }

  lemma {:induction false} MirroredProperties(a: Resource, b: Resource, props: seq<string>, from: seq<Resource>,
                                              upto: seq<Resource>, str: Render)
    requires a.kind == b.kind
    ensures PropertyChanges(b, a, props, upto, from, str) == MirrorProperties(PropertyChanges(a, b, props, from, upto, str))
    decreases |props|
  {
    if props != [] {
      var n := |props| - 1;
      MirroredProperties(a, b, props[..n], from, upto, str);
      ReportedBothWays(a, b, props[n], from, upto, str);
    }
  }

  lemma MirrorTwice(c: Change)
    ensures Mirror(Mirror(c)) == c
  {
    if c.Modified? {
      assert MirrorProperties(MirrorProperties(c.properties)) == c.properties;
    }
  }

  lemma MirroredAt(id: string, from: seq<Resource>, upto: seq<Resource>, str: Render, c: Change)
    requires c in ChangesAt(id, from, upto, str)
    ensures Mirror(c) in ChangesAt(id, upto, from, str)
  {
    var before, after := ById(from), ById(upto);
    if id in before && id in after && before[id].kind == after[id].kind {
      MirroredProperties(before[id], after[id], Tracked(after[id].kind), from, upto, str);
      var p := PropertyChanges(before[id], after[id], Tracked(after[id].kind), from, upto, str);
      var k :| k in p.Keys;
      assert k in MirrorProperties(p);
    }
  }

  /** Swapping the snapshots swaps added with removed, and keeps the modified
      ids and their property keys with old and new values exchanged. */
  lemma SwapMirrors(from: seq<Resource>, upto: seq<Resource>, str: Render, c: Change)
    ensures c in Changes(from, upto, str) <==> Mirror(c) in Changes(upto, from, str)
  {
    MirrorTwice(c);
    if c in Changes(from, upto, str) {
      var i :| i in ById(from).Keys + ById(upto).Keys && c in ChangesAt(i, from, upto, str);
      MirroredAt(i, from, upto, str, c);
      assert i in ById(upto).Keys + ById(from).Keys;
    }
    if Mirror(c) in Changes(upto, from, str) {
      var i :| i in ById(upto).Keys + ById(from).Keys && Mirror(c) in ChangesAt(i, upto, from, str);
      MirroredAt(i, upto, from, str, Mirror(c));
      assert i in ById(from).Keys + ById(upto).Keys;
    }
  }

  // ---- the order of the input --------------------------------------------

  ghost predicate DistinctIds(rs: seq<Resource>) {
    forall i, j :: 0 <= i < j < |rs| ==> rs[i].id != rs[j].id
  }

  ghost predicate DistinctClusterNames(rs: seq<Resource>) {
    forall i, j :: 0 <= i < j < |rs| && rs[i].kind == "cluster" && rs[j].kind == "cluster" ==> rs[i].name != rs[j].name
  }

  ghost predicate SameElements(a: seq<Resource>, b: seq<Resource>) { forall r :: r in a <==> r in b }

  lemma {:induction false} ByIdHas(rs: seq<Resource>, r: Resource)
    requires DistinctIds(rs) && r in rs
    ensures r.id in ById(rs) && ById(rs)[r.id] == r
    decreases |rs|
  {
    var n := |rs| - 1;
    if r != rs[n] {
      var i :| 0 <= i < |rs| && rs[i] == r;
      assert rs[..n][i] == r;
      ByIdHas(rs[..n], r);
    }
  }

  lemma {:induction false} NamesHave(rs: seq<Resource>, name: string, id: string)
    requires DistinctClusterNames(rs)
    ensures name in ClusterNames(rs) && ClusterNames(rs)[name] == id <==>
            exists r :: r in rs && r.kind == "cluster" && r.name == name && r.id == id
    decreases |rs|
  {
    if rs != [] {
      var n := |rs| - 1;
      var last := rs[n];
      NamesHave(rs[..n], name, id);
      assert forall r :: r in rs <==> r in rs[..n] || r == last;
      if last.kind == "cluster" && last.name == name {
        forall r | r in rs[..n] && r.kind == "cluster" ensures r.name != name {
          var i :| 0 <= i < n && rs[..n][i] == r;
          assert rs[i] == r;
        }
      }
    }
  }

  lemma SameById(a: seq<Resource>, b: seq<Resource>)
    requires DistinctIds(a) && DistinctIds(b) && SameElements(a, b)
    ensures ById(a) == ById(b)
  {
    forall id ensures id in ById(a) <==> id in ById(b)
      ensures id in ById(a) && id in ById(b) ==> ById(a)[id] == ById(b)[id]
    {
      ByIdKeyed(a, id);
      ByIdKeyed(b, id);
      if id in ById(a) {
        ByIdHas(b, ById(a)[id]);
      }
      if id in ById(b) {
        ByIdHas(a, ById(b)[id]);
      }
    }
  }

  lemma SameNames(a: seq<Resource>, b: seq<Resource>)
    requires DistinctClusterNames(a) && DistinctClusterNames(b) && SameElements(a, b)
    ensures ClusterNames(a) == ClusterNames(b)
  {
    forall name ensures name in ClusterNames(a) <==> name in ClusterNames(b)
      ensures name in ClusterNames(a) && name in ClusterNames(b) ==> ClusterNames(a)[name] == ClusterNames(b)[name]
    {
      if name in ClusterNames(a) {
        NamesHave(a, name, ClusterNames(a)[name]);
        NamesHave(b, name, ClusterNames(a)[name]);
      }
      if name in ClusterNames(b) {
        NamesHave(a, name, ClusterNames(b)[name]);
        NamesHave(b, name, ClusterNames(b)[name]);
      }
    }
  }

  lemma SameMembers(a: seq<Resource>, b: seq<Resource>, cluster: string, str: Render)
    requires DistinctClusterNames(a) && DistinctClusterNames(b) && SameElements(a, b)
    ensures Members(a, cluster, str) == Members(b, cluster, str)
  {
    SameNames(a, b);
    assert ClusterIds(a) == ClusterIds(b);
  }

  lemma SameValueOf(r: Resource, prop: string, rs: seq<Resource>, rs': seq<Resource>, str: Render)
    requires Members(rs, r.id, str) == Members(rs', r.id, str)
    ensures ValueOf(r, prop, rs, str) == ValueOf(r, prop, rs', str)
  {
  }

  lemma SameProperty(changes: map<string, PropertyChange>, x: Resource, y: Resource, prop: string,
                     a: seq<Resource>, b: seq<Resource>, a': seq<Resource>, b': seq<Resource>, str: Render)
    requires ValueOf(x, prop, a, str) == ValueOf(x, prop, a', str) && ValueOf(y, prop, b, str) == ValueOf(y, prop, b', str)
    ensures WithProperty(changes, x, y, prop, a, b, str) == WithProperty(changes, x, y, prop, a', b', str)
  {
  }

  lemma {:induction false} SameProperties(x: Resource, y: Resource, props: seq<string>, a: seq<Resource>, b: seq<Resource>,
                                          a': seq<Resource>, b': seq<Resource>, str: Render)
    requires forall prop :: prop in props ==>
               && ValueOf(x, prop, a, str) == ValueOf(x, prop, a', str)
               && ValueOf(y, prop, b, str) == ValueOf(y, prop, b', str)
    ensures PropertyChanges(x, y, props, a, b, str) == PropertyChanges(x, y, props, a', b', str)
    decreases |props|
  {
    if props != [] {
      var n := |props| - 1;
      SameProperties(x, y, props[..n], a, b, a', b', str);
      SameProperty(PropertyChanges(x, y, props[..n], a, b, str), x, y, props[n], a, b, a', b', str);
    }
  }

  lemma SameResource(x: Resource, y: Resource, props: seq<string>, a: seq<Resource>, b: seq<Resource>,
                     a': seq<Resource>, b': seq<Resource>, str: Render)
    requires DistinctClusterNames(a) && DistinctClusterNames(a') && SameElements(a, a')
    requires DistinctClusterNames(b) && DistinctClusterNames(b') && SameElements(b, b')
    ensures PropertyChanges(x, y, props, a, b, str) == PropertyChanges(x, y, props, a', b', str)
  {
    SameMembers(a, a', x.id, str);
    SameMembers(b, b', y.id, str);
    forall prop | prop in props
      ensures ValueOf(x, prop, a, str) == ValueOf(x, prop, a', str) && ValueOf(y, prop, b, str) == ValueOf(y, prop, b', str)
    {
      SameValueOf(x, prop, a, a', str);
      SameValueOf(y, prop, b, b', str);
    }
    SameProperties(x, y, props, a, b, a', b', str);
  }

  /** With distinct ids and distinct cluster names the diff does not depend on
      the order the resources come in. */
  lemma OrderIsIrrelevant(a: seq<Resource>, b: seq<Resource>, a': seq<Resource>, b': seq<Resource>, str: Render)
    requires DistinctIds(a) && DistinctClusterNames(a) && DistinctIds(a') && DistinctClusterNames(a') && SameElements(a, a')
    requires DistinctIds(b) && DistinctClusterNames(b) && DistinctIds(b') && DistinctClusterNames(b') && SameElements(b, b')
    ensures Changes(a, b, str) == Changes(a', b', str)
  {
    SameById(a, a');
    SameById(b, b');
    forall id | id in ById(a) && id in ById(b)
      ensures PropertyChanges(ById(a)[id], ById(b)[id], Tracked(ById(b)[id].kind), a, b, str) ==
              PropertyChanges(ById(a)[id], ById(b)[id], Tracked(ById(b)[id].kind), a', b', str)
    {
      SameResource(ById(a)[id], ById(b)[id], Tracked(ById(b)[id].kind), a, b, a', b', str);
    }
    forall id ensures ChangesAt(id, a, b, str) == ChangesAt(id, a', b', str) {
    }
    forall c ensures c in Changes(a, b, str) <==> c in Changes(a', b', str) {
      if c in Changes(a, b, str) {
        var id :| id in ById(a).Keys + ById(b).Keys && c in ChangesAt(id, a, b, str);
        assert c in ChangesAt(id, a', b', str);
      }
      if c in Changes(a', b', str) {
        var id :| id in ById(a').Keys + ById(b').Keys && c in ChangesAt(id, a', b', str);
        assert c in ChangesAt(id, a, b, str);
      }
    }
  }

  lemma SameOrder(out: seq<Change>, b: seq<Resource>, b': seq<Resource>)
    requires ById(b) == ById(b') && Sorted(out, b)
    ensures Sorted(out, b')
  {
    forall i, j | 0 <= i < j < |out| ensures Precedes(out[i], out[j], b') {
      assert Precedes(out[i], out[j], b);
    }
  }

  /** Nor does the list it returns. */
  lemma OutputIgnoresOrder(a: seq<Resource>, b: seq<Resource>, a': seq<Resource>, b': seq<Resource>, str: Render,
                           threshold: Significance)
    requires DistinctIds(a) && DistinctClusterNames(a) && DistinctIds(a') && DistinctClusterNames(a') && SameElements(a, a')
    requires DistinctIds(b) && DistinctClusterNames(b) && DistinctIds(b') && DistinctClusterNames(b') && SameElements(b, b')
    ensures Output(a, b, str, threshold) == Output(a', b', str, threshold)
  {
    OrderIsIrrelevant(a, b, a', b', str);
    SameById(b, b');
    SameOrder(Output(a, b, str, threshold), b, b');
    OutputIsTheOne(Output(a, b, str, threshold), a', b', str, threshold);
  }
}
