/** The semantic diff in terms of the resources themselves: a second, declarative
    reading of backend/app/diff/engine.py and of the cluster membership and disk
    usage it relies on (backend/app/diagnostics/checks/_common.py), to which the
    functions of `SnapshotDiff` are proved equal. */
module DiffMeaning {
  import opened Basics
  import opened SnapshotDiff
  import T = Text

  // ---- which resource an id stands for -----------------------------------

  /** Of resources with one id the last one counts. */
  ghost predicate Stands(rs: seq<Resource>, r: Resource) {
    exists i :: 0 <= i < |rs| && rs[i] == r && forall j :: i < j < |rs| ==> rs[j].id != r.id
  }

  lemma {:induction false} ByIdStands(rs: seq<Resource>, r: Resource)
    ensures r.id in ById(rs) && ById(rs)[r.id] == r <==> Stands(rs, r)
    decreases |rs|
  {
    if rs != [] {
      var n := |rs| - 1;
      var front, last := rs[..n], rs[n];
      ByIdStands(front, r);
      if last.id == r.id {
        assert Stands(rs, r) ==> r == last;
        assert rs[n] == last;
      } else {
        if Stands(front, r) {
          var i :| 0 <= i < n && front[i] == r && forall j :: i < j < n ==> front[j].id != r.id;
          assert rs[i] == r && forall j :: i < j < |rs| ==> j == n || rs[j] == front[j];
        }
        if Stands(rs, r) {
          var i :| 0 <= i < |rs| && rs[i] == r && forall j :: i < j < |rs| ==> rs[j].id != r.id;
          assert front[i] == r && forall j :: i < j < n ==> front[j] == rs[j];
        }
      }
    }
  }

  lemma {:induction false} KnownStands(rs: seq<Resource>, id: string)
    ensures id in ById(rs) ==> Stands(rs, ById(rs)[id]) && ById(rs)[id].id == id
    ensures id !in ById(rs) ==> forall r :: r in rs ==> r.id != id
    decreases |rs|
  {
    ByIdKeyed(rs, id);
    if id in ById(rs) {
      ByIdStands(rs, ById(rs)[id]);
    } else if rs != [] {
      KnownStands(rs[..|rs| - 1], id);
      assert forall r :: r in rs ==> r in rs[..|rs| - 1] || r == rs[|rs| - 1];
    }
  }

  // ---- cluster membership ------------------------------------------------

  ghost predicate FirstMemberOf(relations: seq<Relation>, target: string) {
    exists i :: 0 <= i < |relations| && relations[i] == Relation("member_of", target)
                && forall j :: 0 <= j < i ==> relations[j].kind != "member_of"
  }

  ghost predicate NoMemberOf(relations: seq<Relation>) { forall i :: 0 <= i < |relations| ==> relations[i].kind != "member_of" }

  lemma {:induction false} MemberOfIs(relations: seq<Relation>)
    ensures match MemberOf(relations)
            case Some(target) => FirstMemberOf(relations, target)
            case None => NoMemberOf(relations)
    decreases |relations|
  {
    if relations != [] {
      if relations[0].kind == "member_of" {
        assert relations[0] == Relation("member_of", relations[0].targetId);
      } else {
        MemberOfIs(relations[1..]);
        if MemberOf(relations).Some? {
          var target := MemberOf(relations).value;
          var i :| 0 <= i < |relations[1..]| && relations[1..][i] == Relation("member_of", target)
                   && forall j :: 0 <= j < i ==> relations[1..][j].kind != "member_of";
          assert relations[i + 1] == Relation("member_of", target);
          assert forall j :: 1 <= j < i + 1 ==> relations[j] == relations[1..][j - 1];
        } else {
          assert forall j :: 1 <= j < |relations| ==> relations[j] == relations[1..][j - 1];
        }
      }
    }
  }

  lemma OneTarget(relations: seq<Relation>, a: string, b: string)
    requires FirstMemberOf(relations, a) && FirstMemberOf(relations, b)
    ensures a == b
  {
  }

  ghost predicate IsCluster(rs: seq<Resource>, id: string) { exists r :: r in rs && r.kind == "cluster" && r.id == id }

  predicate ClusterNamed(r: Resource, name: string) { r.kind == "cluster" && r.name == name }

  /** The last cluster of the name has the id. */
  ghost predicate LastNamed(rs: seq<Resource>, name: string, id: string) {
    exists i :: 0 <= i < |rs| && ClusterNamed(rs[i], name) && rs[i].id == id
                && forall j :: i < j < |rs| ==> !ClusterNamed(rs[j], name)
  }

  ghost predicate NoneNamed(rs: seq<Resource>, name: string) { forall r :: r in rs ==> !ClusterNamed(r, name) }

  lemma {:induction false} ClusterNamesAre(rs: seq<Resource>, name: string)
    ensures name in ClusterNames(rs) ==> LastNamed(rs, name, ClusterNames(rs)[name])
    ensures name !in ClusterNames(rs) ==> NoneNamed(rs, name)
    decreases |rs|
  {
    if rs != [] {
      var n := |rs| - 1;
      var front, last := rs[..n], rs[n];
      ClusterNamesAre(front, name);
      if ClusterNamed(last, name) {
        assert rs[n] == last;
      } else if name in ClusterNames(front) {
        var id := ClusterNames(front)[name];
        var i :| 0 <= i < n && ClusterNamed(front[i], name) && front[i].id == id
                 && forall j :: i < j < n ==> !ClusterNamed(front[j], name);
        assert rs[i] == front[i] && forall j :: i < j < |rs| ==> j == n || rs[j] == front[j];
      } else {
        assert forall r :: r in rs ==> r in front || r == last;
      }
    }
  }

  lemma LastNamedOne(rs: seq<Resource>, name: string, a: string, b: string)
    requires LastNamed(rs, name, a)
    ensures LastNamed(rs, name, b) ==> a == b
    ensures !NoneNamed(rs, name)
  {
    var i :| 0 <= i < |rs| && ClusterNamed(rs[i], name) && rs[i].id == a && forall j :: i < j < |rs| ==> !ClusterNamed(rs[j], name);
    assert rs[i] in rs;
  }

  /** The cluster a host belongs to: the target of its first membership; without
      one, its parent, if that is a cluster; failing that, the cluster whose id
      or, if there is none, whose name its own property gives; and a text that
      is neither stands for itself. */
  ghost predicate BelongsTo(h: Resource, rs: seq<Resource>, cluster: string) {
    if !NoMemberOf(h.relations) then FirstMemberOf(h.relations, cluster)
    else if h.parentId != "" && IsCluster(rs, h.parentId) then h.parentId == cluster
    else if "cluster" in h.properties && h.properties["cluster"].Text? && h.properties["cluster"].s != "" then
      var s := h.properties["cluster"].s;
      if IsCluster(rs, s) then s == cluster else LastNamed(rs, s, cluster) || (NoneNamed(rs, s) && s == cluster)
    else false
  }

  lemma HostBelongs(h: Resource, rs: seq<Resource>, cluster: string)
    ensures HostClusterId(h, Some(ClusterIds(rs)), ClusterNames(rs)) == Some(cluster) <==> BelongsTo(h, rs, cluster)
  {
    MemberOfIs(h.relations);
    forall id ensures id in ClusterIds(rs) <==> IsCluster(rs, id) {
    }
    if MemberOf(h.relations).Some? {
      var target := MemberOf(h.relations).value;
      if FirstMemberOf(h.relations, cluster) {
        OneTarget(h.relations, target, cluster);
      }
    } else {
      var s := if Get(h, "cluster").Text? then Get(h, "cluster").s else "";
      ClusterNamesAre(rs, s);
      if s in ClusterNames(rs) {
        LastNamedOne(rs, s, ClusterNames(rs)[s], cluster);
      } else if LastNamed(rs, s, cluster) {
        LastNamedOne(rs, s, cluster, cluster);
      }
    }
  }

  ghost predicate Listed(rs: seq<Resource>, cluster: string, str: Render, id: string) {
    exists r, v :: r in rs && r.kind == "cluster" && r.id == cluster && "hosts" in r.properties && r.properties["hosts"].List?
                   && v in r.properties["hosts"].items && str(v) == id
  }

  ghost predicate Member(rs: seq<Resource>, cluster: string, str: Render, id: string) {
    Listed(rs, cluster, str, id) || exists h :: h in rs && h.kind == "host" && h.id == id && BelongsTo(h, rs, cluster)
  }

  /** The members of a cluster are the hosts it lists and those that belong to it. */
  lemma MembersAre(rs: seq<Resource>, cluster: string, str: Render, id: string)
    ensures id in Members(rs, cluster, str) <==> Member(rs, cluster, str, id)
  {
    forall h ensures HostClusterId(h, Some(ClusterIds(rs)), ClusterNames(rs)) == Some(cluster) <==> BelongsTo(h, rs, cluster) {
      HostBelongs(h, rs, cluster);
    }
  }

  /** What a host shows as its cluster, without looking at the clusters. */
  ghost predicate ShownCluster(h: Resource, v: Value) {
    if !NoMemberOf(h.relations) then v.Text? && FirstMemberOf(h.relations, v.s)
    else if h.parentId != "" then v == Text(h.parentId)
    else if "cluster" in h.properties && h.properties["cluster"].Text? && h.properties["cluster"].s != "" then
      v == h.properties["cluster"]
    else v == Null
  }

  /** The value of a property that is compared. */
  ghost predicate ValueIs(r: Resource, prop: string, rs: seq<Resource>, str: Render, v: Value) {
    if prop == "name" then v == Text(r.name)
    else if r.kind == "host" && prop == "cluster" then ShownCluster(r, v)
    else if r.kind == "cluster" && prop == "hosts" then v.Ids? && forall id :: id in v.ids <==> Member(rs, r.id, str, id)
    else if prop in r.properties then v == r.properties[prop]
    else v == Null
  }

  lemma ValueOfIs(r: Resource, prop: string, rs: seq<Resource>, str: Render)
    ensures ValueIs(r, prop, rs, str, ValueOf(r, prop, rs, str))
  {
    MemberOfIs(r.relations);
    forall id ensures id in Members(rs, r.id, str) <==> Member(rs, r.id, str, id) {
      MembersAre(rs, r.id, str, id);
    }
  }

  // ---- free space --------------------------------------------------------

  /** The used share of a datastore in percent: nothing below no use, nothing
      above full. */
  predicate Used(capacity: real, free: real, percent: real)
    requires capacity > 0.0
  {
    if free <= 0.0 then percent == 100.0
    else if free >= capacity then percent == 0.0
    else percent * capacity == 100.0 * (capacity - free)
  }

  predicate Tenth(x: real) { (x * 10.0).Floor as real == x * 10.0 }

  /** Rounding to a tenth: to the nearest one, and of two to the even one. */
  lemma RoundsToTenth(x: real)
    ensures var y := ToTenths(x);
            && Tenth(y) && -0.05 <= y - x <= 0.05
            && (y - x == 0.05 || y - x == -0.05 ==> (y * 10.0).Floor % 2 == 0)
  {
    var tenths := (x * 10.0).Floor;
    assert tenths as real <= x * 10.0 < tenths as real + 1.0;
    assert (tenths as real).Floor == tenths && (tenths as real + 1.0).Floor == tenths + 1;
  }

  lemma AtLeast(share: real, capacity: real)
    requires capacity > 0.0 && share >= 1.0
    ensures share * capacity >= capacity
  {
    assert (share - 1.0) * capacity >= 0.0;
  }

  lemma ShareBelow(share: real, capacity: real, free: real)
    requires share * capacity == free && 0.0 < free < capacity
    ensures 0.0 < share < 1.0
  {
    if share >= 1.0 {
      AtLeast(share, capacity);
      assert false;
    }
  }

  lemma ClampedShare(capacity: real, free: real)
    requires capacity > 0.0
    ensures Used(capacity, free, Clamp(1.0 - free / capacity) * 100.0)
  {
    var share := free / capacity;
    assert share * capacity == free;
    if free <= 0.0 {
      assert share <= 0.0;
    } else if free >= capacity {
      assert share >= 1.0;
    } else {
      ShareBelow(share, capacity, free);
      assert (1.0 - share) * capacity == capacity - free;
    }
  }

  /** The usage of a datastore is known when its capacity and its free space are,
      and then it is the used share, to one decimal. */
  lemma UsageIs(r: Resource)
    ensures UsagePct(r) != None <==>
            "capacity" in r.properties && r.properties["capacity"].Num? && r.properties["capacity"].n > 0.0 &&
            "freeSpace" in r.properties && r.properties["freeSpace"].Num?
    ensures UsagePct(r) != None ==>
              exists percent :: Used(r.properties["capacity"].n, r.properties["freeSpace"].n, percent)
                                && UsagePct(r).value == ToTenths(percent)
  {
    if UsagePct(r) != None {
      ClampedShare(r.properties["capacity"].n, r.properties["freeSpace"].n);
    }
  }

  /** Free space moved when the usage became known or unknown, by five points or
      more, or across 85 or 95. */
  lemma MovedIs(a: Resource, b: Resource)
    ensures FreeSpaceMoved(a, b) <==>
            match (UsagePct(a), UsagePct(b))
            case (None, None) => false
            case (None, Some(_)) => true
            case (Some(_), None) => true
            case (Some(p), Some(q)) =>
              p >= q + 5.0 || q >= p + 5.0 || (p >= 85.0 && q < 85.0) || (q >= 85.0 && p < 85.0) || (p >= 95.0 && q < 95.0)
              || (q >= 95.0 && p < 95.0)
  {
  }

  // ---- what counts as changed --------------------------------------------

  predicate Nothing(v: Value) { v == Null || v == List([]) || v == Ids({}) }

  predicate UpToOrder(o: Value, n: Value) { o == n || (o.List? && n.List? && multiset(o.items) == multiset(n.items)) }

  /** A property is reported when its values differ, up to the order of a list; but
      not when both are nothing, nor, for what a collector may fail to return,
      when one of them is missing; and the free space of a datastore only when
      it moved. */
  lemma ReportedIs(a: Resource, b: Resource, prop: string, from: seq<Resource>, upto: seq<Resource>, str: Render)
    ensures var o, n := ValueOf(a, prop, from, str), ValueOf(b, prop, upto, str);
            Reported(a, b, prop, from, upto, str) <==>
            && !UpToOrder(o, n) && !(Nothing(o) && Nothing(n))
            && (prop in {"bootTime", "vmkernelAdapters", "physicalNics", "standardSwitches", "ntpServers", "dnsServers",
                         "lockdownMode", "version", "build", "disks", "nics", "snapshotCount", "vsanEnabled", "hosts"}
                ==> o != Null && n != Null)
            && (b.kind == "datastore" && prop == "freeSpace" ==> FreeSpaceMoved(a, b))
  {
  }

  /** A modification lists each tracked property that is reported with its value
      before and after, and next to the free space of a datastore its usage. */
  lemma PropertiesAre(a: Resource, b: Resource, prop: string, from: seq<Resource>, upto: seq<Resource>, str: Render)
    ensures var p := PropertyChanges(a, b, Tracked(b.kind), from, upto, str);
            && (prop != "usagePct" ==>
                  && (prop in p <==> prop in Tracked(b.kind) && Reported(a, b, prop, from, upto, str))
                  && (prop in p ==> p[prop] == PropertyChange(ValueOf(a, prop, from, str), ValueOf(b, prop, upto, str))))
            && ("usagePct" in p <==> b.kind == "datastore" && "freeSpace" in p)
            && ("usagePct" in p ==> Shows(p["usagePct"].before, UsagePct(a)) && Shows(p["usagePct"].after, UsagePct(b)))
  {
    var props := Tracked(b.kind);
    UsageNotTracked(b.kind);
    ChangesExactly(a, b, props, prop, from, upto, str);
    ChangesExactly(a, b, props, "freeSpace", from, upto, str);
  }

  predicate Shows(v: Value, usage: Option<real>) {
    match usage
    case None => v == Null
    case Some(percent) => v == Num(percent)
  }

  lemma UsageNotTracked(kind: string)
    ensures "usagePct" !in Tracked(kind)
  {
    TrackedIs(kind, "usagePct");
    UsageNotInTable(kind, High);
    UsageNotInTable(kind, Medium);
    UsageNotInTable(kind, Low);
  }

  lemma UsageNotInTable(kind: string, s: Significance)
    ensures "usagePct" !in Table(kind, s)
  {
  }

  // ---- significance ------------------------------------------------------

  /** The tracked properties of each type by what a change of them means. */
  function Table(kind: string, s: Significance): set<string> {
    match (kind, s)
    case ("host", High) => {"connectionState", "powerState", "vmkernelAdapters"}
    case ("host", Medium) => {"maintenanceMode", "cluster", "version", "build", "lockdownMode", "ntpServers",
        "dnsServers", "bootTime"}
    case ("host", Low) => {"model", "memoryBytes", "numCpuCores", "physicalNics", "standardSwitches"}
    case ("vm", Medium) => {"powerState", "networks", "datastores", "disks", "nics"}
    case ("vm", Low) => {"host", "numCpu", "memoryMB", "hardwareVersion", "template", "snapshotCount", "resourcePool",
        "folder", "cpuReservationMhz", "memReservationMB", "toolsStatus", "guestIp", "annotation", "bootTime"}
    case ("cluster", High) => {"drsEnabled", "haEnabled", "vsanEnabled"}
    case ("cluster", Medium) => {"hosts", "drsAutomationLevel", "haAdmissionControl", "evcMode"}
    case ("cluster", Low) => {"ruleCount"}
    case ("datastore", High) => {"accessible"}
    case ("datastore", Medium) => {"capacity", "freeSpace", "hosts", "maintenanceMode"}
    case ("datastore", Low) => {"multipleHostAccess"}
    case ("network", High) => {"vlan"}
    case ("network", Medium) => {"switch"}
    case ("network", Low) => {"numPorts", "hosts"}
    case ("vcenter", Medium) => {"version", "build"}
    case ("vcenter", Low) => {"apiVersion"}
    case _ => {}
  }

  predicate InTable(kind: string, prop: string) {
    prop in Table(kind, High) || prop in Table(kind, Medium) || prop in Table(kind, Low)
  }

  /** Tracked are the name, of every type, and what the table has for the type. */
  lemma TrackedIs(kind: string, prop: string)
    ensures prop in Tracked(kind) <==> prop == "name" || InTable(kind, prop)
  {
    assert prop in Tracked(kind) <==> prop == "name" || prop in Properties(kind);
    if kind == "host" {
      HostTracked(prop);
    } else if kind == "vm" {
      MachineTracked(prop);
    } else if kind == "cluster" {
      ClusterTracked(prop);
    } else if kind == "datastore" {
      DatastoreTracked(prop);
    } else if kind == "network" || kind == "vcenter" {
      OthersTracked(prop);
    }
  }

  lemma HostTracked(prop: string)
    ensures prop in Properties("host") <==> InTable("host", prop)
  {
  }

  lemma MachineTracked(prop: string)
    ensures prop in Properties("vm") <==> InTable("vm", prop)
  {
  }

  lemma ClusterTracked(prop: string)
    ensures prop in Properties("cluster") <==> InTable("cluster", prop)
  {
  }

  lemma DatastoreTracked(prop: string)
    ensures prop in Properties("datastore") <==> InTable("datastore", prop)
  {
  }

  lemma OthersTracked(prop: string)
    ensures prop in Properties("network") <==> InTable("network", prop)
    ensures prop in Properties("vcenter") <==> InTable("vcenter", prop)
  {
  }

  /** A change of free space is high once the usage has reached 95 percent; a new
      name is medium; any other property is what the table says. */
  lemma SignificanceIs(kind: string, p: map<string, PropertyChange>, prop: string)
    ensures prop == "name" ==> PropertySignificance(kind, p, prop) == Medium
    ensures kind == "datastore" && prop == "freeSpace" ==>
              PropertySignificance(kind, p, prop) ==
              if "usagePct" in p && p["usagePct"].after.Num? && p["usagePct"].after.n >= 95.0 then High else Medium
    ensures prop != "name" && !(kind == "datastore" && prop == "freeSpace") ==>
              && (PropertySignificance(kind, p, prop) == High <==> prop in Table(kind, High))
              && (PropertySignificance(kind, p, prop) == Medium <==> prop in Table(kind, Medium))
  {
    TablesAre(kind);
  }

  lemma TablesAre(kind: string)
    ensures Table(kind, High) == if kind in HIGH then HIGH[kind] else {}
    ensures Table(kind, Medium) - {"freeSpace"} == if kind in MEDIUM then MEDIUM[kind] else {}
    ensures "freeSpace" in Table(kind, Medium) ==> kind == "datastore"
    ensures Table(kind, High) * Table(kind, Medium) == {}
  {
  }

  /** How significant a change is: an addition low; a removal by what is gone; and
      a modification as the most significant of its properties. */
  lemma ChangeSignificanceIs(c: Change)
    ensures match c
            case Added(_, _, _) => SignificanceOf(c) == Low
            case Removed(_, kind, _) =>
              && (SignificanceOf(c) == High <==> kind == "host" || kind == "network" || kind == "datastore")
              && (SignificanceOf(c) == Medium <==> kind == "vm")
            case Modified(_, kind, p) =>
              && (SignificanceOf(c) == High <==>
                  exists prop :: prop in p && prop != "usagePct" && PropertySignificance(kind, p, prop) == High)
              && (SignificanceOf(c) == Low <==>
                  forall prop :: prop in p && prop != "usagePct" ==> PropertySignificance(kind, p, prop) == Low)
  {
    if c.Modified? {
      assert HasProperty(c.kind, c.properties, High) || HasProperty(c.kind, c.properties, Medium) ||
             forall prop :: prop in c.properties && prop != "usagePct" ==> PropertySignificance(c.kind, c.properties, prop) == Low;
    }
  }

  /** The list has what is at least as significant as asked, and no more. */
  lemma OutputHas(from: seq<Resource>, upto: seq<Resource>, str: Render, threshold: Significance, c: Change)
    ensures c in Output(from, upto, str, threshold) <==>
            c in Changes(from, upto, str) &&
            (SignificanceOf(c) == High || threshold == Low || (SignificanceOf(c) == Medium && threshold == Medium))
  {
    ChangesKeyed(from, upto, str);
    var kept := Significant(Changes(from, upto, str), threshold);
    assert c in InOrder(kept, upto) <==> c in kept;
  }

  /** And it is in order of significance, then type, name and id. */
  lemma OutputOrder(out: seq<Change>, upto: seq<Resource>, i: nat, j: nat)
    requires Sorted(out, upto) && i < j < |out|
    ensures NotAfter(out[i], out[j], upto)
  {
    assert Precedes(out[i], out[j], upto);
    T.LexTotal(out[i].kind, out[i].kind);
    T.LexTotal(NameOf(out[i], upto), NameOf(out[i], upto));
  }

  /** The name a change is shown under: that of the resource as it is, or as it
      was when it is gone. */
  ghost predicate ShownAs(c: Change, upto: seq<Resource>, name: string) {
    match c
    case Added(_, _, n) => name == n
    case Removed(_, _, n) => name == n
    case Modified(id, _, _) => forall r :: Stands(upto, r) && r.id == id ==> name == r.name
  }

  lemma NameIs(c: Change, upto: seq<Resource>)
    ensures ShownAs(c, upto, NameOf(c, upto))
  {
    StandsExactly(upto, c.id);
  }

  predicate NotAfter(c: Change, d: Change, upto: seq<Resource>) {
    var m, n := SignificanceOf(c), SignificanceOf(d);
    if m != n then m == High || n == Low
    else if c.kind != d.kind then T.LexLess(c.kind, d.kind)
    else if NameOf(c, upto) != NameOf(d, upto) then T.LexLess(NameOf(c, upto), NameOf(d, upto))
    else T.LexLess(c.id, d.id)
  }

  // ---- the changes -------------------------------------------------------

  /** The id stands for a resource of the type. */
  ghost predicate StandsFor(rs: seq<Resource>, id: string, kind: string) {
    exists r :: Stands(rs, r) && r.id == id && r.kind == kind
  }

  lemma StandsForIs(rs: seq<Resource>, id: string, kind: string)
    ensures StandsFor(rs, id, kind) <==> id in ById(rs) && ById(rs)[id].kind == kind
  {
    StandsExactly(rs, id);
  }

  /** A resource is added when its id is new or was one of another type. */
  lemma AddedIs(from: seq<Resource>, upto: seq<Resource>, str: Render, r: Resource)
    ensures Stands(upto, r) ==>
              (Added(r.id, r.kind, r.name) in Changes(from, upto, str) <==> !StandsFor(from, r.id, r.kind))
  {
    ChangesOfItsId(from, upto, str, Added(r.id, r.kind, r.name));
    StandsExactly(upto, r.id);
    StandsForIs(from, r.id, r.kind);
  }

  /** It is removed when its id is gone or is one of another type. */
  lemma RemovedIs(from: seq<Resource>, upto: seq<Resource>, str: Render, r: Resource)
    ensures Stands(from, r) ==>
              (Removed(r.id, r.kind, r.name) in Changes(from, upto, str) <==> !StandsFor(upto, r.id, r.kind))
  {
    ChangesOfItsId(from, upto, str, Removed(r.id, r.kind, r.name));
    StandsExactly(from, r.id);
    StandsForIs(upto, r.id, r.kind);
  }

  /** And modified when it kept both and some tracked property is reported. */
  lemma ModifiedIs(from: seq<Resource>, upto: seq<Resource>, str: Render, a: Resource, b: Resource,
                   properties: map<string, PropertyChange>)
    requires Stands(from, a) && Stands(upto, b) && a.id == b.id
    ensures Modified(a.id, b.kind, properties) in Changes(from, upto, str) <==>
            a.kind == b.kind && properties == PropertyChanges(a, b, Tracked(b.kind), from, upto, str) && properties != map[]
  {
    ChangesOfItsId(from, upto, str, Modified(a.id, b.kind, properties));
    StandsExactly(from, a.id);
    StandsExactly(upto, a.id);
  }

  /** There are no other changes. */
  lemma ChangeHasResource(from: seq<Resource>, upto: seq<Resource>, str: Render, c: Change)
    requires c in Changes(from, upto, str)
    ensures match c
            case Added(id, kind, name) => exists r :: Stands(upto, r) && r.id == id && r.kind == kind && r.name == name
            case Removed(id, kind, name) => exists r :: Stands(from, r) && r.id == id && r.kind == kind && r.name == name
            case Modified(id, kind, _) => StandsFor(from, id, kind) && StandsFor(upto, id, kind)
  {
    ChangesOfItsId(from, upto, str, c);
    KnownStands(from, c.id);
    KnownStands(upto, c.id);
  }

  lemma ChangesOfItsId(from: seq<Resource>, upto: seq<Resource>, str: Render, c: Change)
    ensures c in Changes(from, upto, str) <==> c in ChangesAt(c.id, from, upto, str)
  {
    forall id ensures c in ChangesAt(id, from, upto, str) ==> c.id == id {
      ChangesAreOfTheirId(id, from, upto, str);
    }
  }

  lemma StandsExactly(rs: seq<Resource>, id: string)
    ensures forall r :: Stands(rs, r) && r.id == id <==> id in ById(rs) && ById(rs)[id] == r
  {
    KnownStands(rs, id);
    forall r | Stands(rs, r) && r.id == id ensures id in ById(rs) && ById(rs)[id] == r {
      ByIdStands(rs, r);
    }
  }
}
