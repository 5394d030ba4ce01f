/** The mount planning of mount.c: `is_allowed`, `lookup_mount_entry`, `setup_mountpoints`. */
module MountPlan {
  import opened Bytes
  import opened GrowArray
  import StrList
  import Tokens

  /** `sizeof(const char *)`. */
  const POINTER_SIZE := 8

  datatype MountEntry = MountEntry(fsname: string, dir: string, fstype: string, opts: string)

  function FirstWithDir(fstab: seq<MountEntry>, dir: string): (r: Option<MountEntry>)
    ensures r.Some? <==> exists e | e in fstab :: e.dir == dir
    ensures r.Some? ==> r.value in fstab && r.value.dir == dir
  {
    if fstab == [] then None
    else if fstab[0].dir == dir then Some(fstab[0])
    else FirstWithDir(fstab[1..], dir)
  }

  /** The configured table is searched before the built-in one. */
  function EntryFor(varFstab: seq<MountEntry>, defFstab: seq<MountEntry>, dir: string): Option<MountEntry> {
    match FirstWithDir(varFstab, dir)
    case Some(e) => Some(e)
    case None => FirstWithDir(defFstab, dir)
  }

  // ----------------------------------------------------------- classification

  datatype Verdict = Skip | ToDevices | ToMounts | Refuse

  /** What the filter does with one requested item. */
  function VerdictOn(item: string, devices: seq<Option<string>>, mountpoints: seq<Option<string>>): Verdict {
    if item == "/dev" || item == "/dev/shm" then Skip
    else if !("/" <= item) || "//" <= item then Refuse
    else if Some(item) in devices then
      if Some(item) in mountpoints || !("/dev/" <= item) then Refuse else ToDevices
    else if Some(item) in mountpoints then ToMounts
    else Refuse
  }

  /** The items with a given verdict, in order. */
  function Select(items: seq<string>, v: Verdict, devices: seq<Option<string>>, mountpoints: seq<Option<string>>): seq<string> {
    if items == [] then []
    else
      var front := Select(items[..|items| - 1], v, devices, mountpoints);
      var last := items[|items| - 1];
      if VerdictOn(last, devices, mountpoints) == v then front + [last] else front
  }

  // ---------------------------------------------------------------- the code

  /** `is_allowed`. */
  method IsAllowed(item: string, allowed: seq<Option<string>>) returns (found: bool)
    ensures found <==> Some(item) in allowed
  {
    for i := 0 to |allowed|
      invariant Some(item) !in allowed[..i]
    {
      if allowed[i].Some? && item == allowed[i].value {
        return true;
      }
      assert allowed[..i + 1] == allowed[..i] + [allowed[i]];
    }
    assert allowed[..|allowed|] == allowed;
    found := false;
  }

  /** `lookup_mount_entry`; none where the program dies. */
  method LookupMountEntry(mpoint: string, varFstab: seq<MountEntry>, defFstab: seq<MountEntry>)
    returns (e: Option<MountEntry>)
    ensures e == EntryFor(varFstab, defFstab, mpoint)
  {
    e := None;
    var i := 0;
    while e.None? && i < |varFstab|
      invariant 0 <= i <= |varFstab|
      invariant FirstWithDir(varFstab, mpoint) == if e.None? then FirstWithDir(varFstab[i..], mpoint) else e
    {
      assert varFstab[i..][1..] == varFstab[i + 1..];
      if mpoint == varFstab[i].dir {
        e := Some(varFstab[i]);
      }
      i := i + 1;
    }
    i := 0;
    ghost var found := e;
    while e.None? && i < |defFstab|
      invariant 0 <= i <= |defFstab| && (found.Some? ==> e == found)
      invariant found.None? ==>
                  FirstWithDir(defFstab, mpoint) == if e.None? then FirstWithDir(defFstab[i..], mpoint) else e
    {
      assert defFstab[i..][1..] == defFstab[i + 1..];
      if mpoint == defFstab[i].dir {
        e := Some(defFstab[i]);
      }
      i := i + 1;
    }
  }

  datatype Plan =
    | Refused
    | OutOfMemory
    | Plan(devices: seq<string>, mounts: seq<string>, devPtsMounted: bool)

  lemma SelectStep(
    items: seq<string>, x: string, v: Verdict, devices: seq<Option<string>>, mountpoints: seq<Option<string>>)
    ensures Select(items + [x], v, devices, mountpoints) ==
            Select(items, v, devices, mountpoints) + (if VerdictOn(x, devices, mountpoints) == v then [x] else [])
  {
    assert (items + [x])[..|items|] == items;
  }

  datatype Outcome = Accepted | ItemRefused | NoMemory

  /** One round of the first loop of `setup_mountpoints`. */
  method ClassifyItem(
    item: string, devVec: Vector<string>, mpointVec: Vector<string>,
    devices: seq<Option<string>>, mountpoints: seq<Option<string>>)
    returns (o: Outcome)
    requires devVec.Valid() && mpointVec.Valid() && devVec != mpointVec
    requires devVec.list != null ==> devVec.list != mpointVec.list
    modifies devVec, devVec.list, mpointVec, mpointVec.list
    ensures devVec.Valid() && mpointVec.Valid()
    ensures devVec.list == old(devVec.list) || fresh(devVec.list)
    ensures mpointVec.list == old(mpointVec.list) || fresh(mpointVec.list)
    ensures devVec.list != null ==> devVec.list != mpointVec.list
    ensures o.ItemRefused? <==> VerdictOn(item, devices, mountpoints).Refuse?
    ensures o.Accepted? ==>
              var v := VerdictOn(item, devices, mountpoints);
              && devVec.Contents() == old(devVec.Contents()) + (if v.ToDevices? then [item] else [])
              && mpointVec.Contents() == old(mpointVec.Contents()) + (if v.ToMounts? then [item] else [])
  {
    o := Accepted;
    if item == "/dev" || item == "/dev/shm" {
      return;
    }
    if |item| == 0 || item[0] != '/' || (|item| > 1 && item[1] == '/') {
      return ItemRefused;
    }
    var allowedDev := IsAllowed(item, devices);
    var allowedMpoint := IsAllowed(item, mountpoints);
    if allowedDev && allowedMpoint {
      return ItemRefused;
    }
    if allowedDev {
      if !("/dev/" <= item) {
        return ItemRefused;
      }
      var died := devVec.Append(item);
      if died {
        return NoMemory;
      }
    } else if allowedMpoint {
      var died := mpointVec.Append(item);
      if died {
        return NoMemory;
      }
    } else {
      return ItemRefused;
    }
  }

  /** The item is a path with one leading slash. */
  predicate IsPath(x: string) {
    x != "" && x[0] == '/' && (|x| == 1 || x[1] != '/')
  }

  /** Nothing the configuration allows: not a path, in neither list or in both, or a device elsewhere than under /dev. */
  predicate Forbidden(x: string, devices: seq<Option<string>>, mountpoints: seq<Option<string>>) {
    && x != "/dev" && x != "/dev/shm"
    && (|| !IsPath(x)
        || (Some(x) !in devices && Some(x) !in mountpoints)
        || (Some(x) in devices && Some(x) in mountpoints)
        || (Some(x) in devices && !("/dev/" <= x)))
  }

  lemma RefusedIsForbidden(x: string, devices: seq<Option<string>>, mountpoints: seq<Option<string>>)
    ensures VerdictOn(x, devices, mountpoints).Refuse? <==> Forbidden(x, devices, mountpoints)
    ensures VerdictOn(x, devices, mountpoints).ToDevices? <==>
              && x != "/dev" && x != "/dev/shm" && IsPath(x)
              && Some(x) in devices && Some(x) !in mountpoints && "/dev/" <= x
    ensures VerdictOn(x, devices, mountpoints).ToMounts? <==>
              && x != "/dev" && x != "/dev/shm" && IsPath(x)
              && Some(x) in mountpoints && Some(x) !in devices
  {
    var slash, two := "/", "//";
    assert slash[0] == '/' && two[0] == '/' && two[1] == '/';
    assert slash <= x <==> x != "" && x[0] == '/';
    assert two <= x <==> |x| >= 2 && x[0] == '/' && x[1] == '/';
  }

  /** Only what is allowed is planned: the selections in terms of the two lists alone. */
  lemma PlanIsAllowed(items: seq<string>, devices: seq<Option<string>>, mountpoints: seq<Option<string>>, x: string)
    ensures x in Select(items, ToDevices, devices, mountpoints) <==>
              && x in items && x != "/dev" && x != "/dev/shm" && IsPath(x)
              && Some(x) in devices && Some(x) !in mountpoints && "/dev/" <= x
    ensures x in Select(items, ToMounts, devices, mountpoints) <==>
              && x in items && x != "/dev" && x != "/dev/shm" && IsPath(x)
              && Some(x) in mountpoints && Some(x) !in devices
  {
    hide VerdictOn;
    SelectMembers(items, ToDevices, devices, mountpoints);
    SelectMembers(items, ToMounts, devices, mountpoints);
    RefusedIsForbidden(x, devices, mountpoints);
  }

  lemma PlannedAreAllowed(items: seq<string>, devices: seq<Option<string>>, mountpoints: seq<Option<string>>)
    ensures forall x | x in Select(items, ToDevices, devices, mountpoints) ::
              Some(x) in devices && Some(x) !in mountpoints && "/dev/" <= x
    ensures forall x | x in Select(items, ToMounts, devices, mountpoints) :: Some(x) in mountpoints && Some(x) !in devices
  {
    hide Select;
    forall x
      ensures x in Select(items, ToDevices, devices, mountpoints) ==> Some(x) in devices && Some(x) !in mountpoints && "/dev/" <= x
      ensures x in Select(items, ToMounts, devices, mountpoints) ==> Some(x) in mountpoints && Some(x) !in devices
    {
      PlanIsAllowed(items, devices, mountpoints, x);
    }
  }

  /** The first loop of `setup_mountpoints`: memory aside, it dies exactly of a forbidden item, and it plans only what is allowed. */
  method Classify(requested: seq<Option<string>>, devices: seq<Option<string>>, mountpoints: seq<Option<string>>)
    returns (p: Plan)
    ensures var items := StrList.Kept(requested);
            && (p.Refused? ==> exists x | x in items :: Forbidden(x, devices, mountpoints))
            && (p.Plan? ==>
                  && (forall x | x in items :: !Forbidden(x, devices, mountpoints))
                  && (forall x | x in p.devices :: Some(x) in devices && Some(x) !in mountpoints && "/dev/" <= x)
                  && (forall x | x in p.mounts :: Some(x) in mountpoints && Some(x) !in devices)
                  && p.devices == Select(items, ToDevices, devices, mountpoints)
                  && p.mounts == Select(items, ToMounts, devices, mountpoints)
                  && (p.devPtsMounted <==> "/dev/pts" in p.mounts))
  {
    hide VerdictOn, Forbidden, IsPath;
    var devVec := new Vector<string>(POINTER_SIZE);
    var mpointVec := new Vector<string>(POINTER_SIZE);
    var devPtsMounted := false;
    StrList.KeptMembers(requested);
    ghost var seen: seq<string> := [];
    for i := 0 to |requested|
      invariant devVec.Valid() && mpointVec.Valid() && fresh(devVec) && fresh(mpointVec) && devVec != mpointVec
      invariant (devVec.list != null ==> fresh(devVec.list)) && (mpointVec.list != null ==> fresh(mpointVec.list))
      invariant devVec.list != null ==> devVec.list != mpointVec.list
      invariant seen == StrList.Kept(requested[..i])
      invariant forall x | x in seen :: !Forbidden(x, devices, mountpoints)
      invariant devVec.Contents() == Select(seen, ToDevices, devices, mountpoints)
      invariant mpointVec.Contents() == Select(seen, ToMounts, devices, mountpoints)
      invariant devPtsMounted <==> "/dev/pts" in mpointVec.Contents()
    {
      assert requested[..i + 1][..i] == requested[..i];
      if requested[i].None? {
        continue;
      }
      var item := requested[i].value;
      assert Some(item) in requested;
      RefusedIsForbidden(item, devices, mountpoints);
      SelectStep(seen, item, ToDevices, devices, mountpoints);
      SelectStep(seen, item, ToMounts, devices, mountpoints);
      seen := seen + [item];
      var o := ClassifyItem(item, devVec, mpointVec, devices, mountpoints);
      if o.ItemRefused? {
        return Refused;
      }
      if o.NoMemory? {
        return OutOfMemory;
      }
      if VerdictOn(item, devices, mountpoints).ToMounts? && item == "/dev/pts" {
        devPtsMounted := true;
      }
    }
    assert requested[..|requested|] == requested;
    var d := if devVec.list == null then [] else devVec.list[..devVec.len];
    var m := if mpointVec.list == null then [] else mpointVec.list[..mpointVec.len];
    p := Plan(d, m, devPtsMounted);
    PlannedAreAllowed(seen, devices, mountpoints);
  }

  /** What the rest of `setup_mountpoints` does to the file tree. */
  datatype Action = Mount(entry: MountEntry) | MakeDevice(path: string)

  function PathOf(a: Action): string {
    match a
    case Mount(e) => e.dir
    case MakeDevice(p) => p
  }

  function Paths(log: seq<Action>): (r: seq<string>)
    ensures |r| == |log|
  {
    seq(|log|, i requires 0 <= i < |log| => PathOf(log[i]))
  }

  /** The paths in the order in which they are set up. */
  function SetupOrder(devices: seq<string>, mounts: seq<string>): seq<string> {
    ["/dev"] + devices + ["/dev/shm"] + mounts
  }

  /** Everything that can be looked up or copied is there. */
  ghost predicate Supported(devices: seq<string>, mounts: seq<string>, varFstab: seq<MountEntry>, defFstab: seq<MountEntry>) {
    && "/dev/" !in devices
    && forall d | d == "/dev" || d == "/dev/shm" || d in mounts :: EntryFor(varFstab, defFstab, d).Some?
  }

  /** Each mount in a log uses the entry found for its directory. */
  ghost predicate UsesTable(log: seq<Action>, varFstab: seq<MountEntry>, defFstab: seq<MountEntry>) {
    forall a | a in log && a.Mount? :: EntryFor(varFstab, defFstab, a.entry.dir) == Some(a.entry)
  }

  /** The kernel carries out these steps of the setup. */
  ghost predicate CarriedOut(kernel: nat -> bool, from: nat, to: nat) {
    forall i | from <= i < to :: kernel(i)
  }

  lemma CarriedOutJoins(kernel: nat -> bool, a: nat, b: nat, c: nat)
    requires a <= b <= c
    ensures CarriedOut(kernel, a, c) <==> CarriedOut(kernel, a, b) && CarriedOut(kernel, b, c)
    ensures CarriedOut(kernel, a, a) && (CarriedOut(kernel, a, a + 1) <==> kernel(a))
    ensures CarriedOut(kernel, b, b + 1) <==> kernel(b)
  {
  }

  /**
   `setup_devices`: `copy_dev` insists on a name after the prefix. Whether the
   kernel carries out step n of the setup is given.
   */
  method MakeDevices(devices: seq<string>, kernel: nat -> bool, first: nat) returns (log: seq<Action>, finished: bool)
    ensures Paths(log) <= devices && (forall a | a in log :: a.MakeDevice?)
    ensures CarriedOut(kernel, first, first + |log|)
    ensures finished <==> "/dev/" !in devices && CarriedOut(kernel, first, first + |devices|)
    ensures finished ==> Paths(log) == devices
  {
    log, finished := [], false;
    for i := 0 to |devices|
      invariant Paths(log) == devices[..i] && (forall a | a in log :: a.MakeDevice?)
      invariant "/dev/" !in devices[..i] && CarriedOut(kernel, first, first + i)
    {
      if devices[i] == "/dev/" || !kernel(first + i) {
        assert first <= first + i < first + |devices|;
        return;
      }
      assert devices[..i + 1] == devices[..i] + [devices[i]];
      log := log + [MakeDevice(devices[i])];
    }
    assert devices[..|devices|] == devices;
    finished := true;
  }

  /** The final loop: look each mount point up and mount it. */
  method MountAll(mounts: seq<string>, varFstab: seq<MountEntry>, defFstab: seq<MountEntry>, kernel: nat -> bool, first: nat)
    returns (log: seq<Action>, finished: bool)
    ensures Paths(log) <= mounts && (forall a | a in log :: a.Mount?) && UsesTable(log, varFstab, defFstab)
    ensures CarriedOut(kernel, first, first + |log|)
    ensures finished <==>
              && (forall d | d in mounts :: EntryFor(varFstab, defFstab, d).Some?)
              && CarriedOut(kernel, first, first + |mounts|)
    ensures finished ==> Paths(log) == mounts
  {
    log, finished := [], false;
    for i := 0 to |mounts|
      invariant Paths(log) == mounts[..i] && (forall a | a in log :: a.Mount?) && UsesTable(log, varFstab, defFstab)
      invariant forall d | d in mounts[..i] :: EntryFor(varFstab, defFstab, d).Some?
      invariant CarriedOut(kernel, first, first + i)
    {
      var e := LookupMountEntry(mounts[i], varFstab, defFstab);
      if e.None? || !kernel(first + i) {
        assert mounts[i] in mounts && first <= first + i < first + |mounts|;
        return;
      }
      assert mounts[..i + 1] == mounts[..i] + [mounts[i]];
      log := log + [Mount(e.value)];
    }
    assert mounts[..|mounts|] == mounts;
    finished := true;
  }

  lemma PathsAppend(a: seq<Action>, b: seq<Action>)
    ensures Paths(a + b) == Paths(a) + Paths(b)
  {
  }

  lemma UsesTableAppend(a: seq<Action>, b: seq<Action>, varFstab: seq<MountEntry>, defFstab: seq<MountEntry>)
    requires UsesTable(a, varFstab, defFstab) && UsesTable(b, varFstab, defFstab)
    ensures UsesTable(a + b, varFstab, defFstab)
  {
  }

  /** Mount /dev and make the devices. */
  method SetUpDev(devices: seq<string>, varFstab: seq<MountEntry>, defFstab: seq<MountEntry>, kernel: nat -> bool)
    returns (log: seq<Action>, finished: bool)
    ensures Paths(log) <= ["/dev"] + devices && UsesTable(log, varFstab, defFstab) && CarriedOut(kernel, 0, |log|)
    ensures forall i | 0 <= i < |log| :: log[i].MakeDevice? <==> 1 <= i
    ensures finished <==>
              && "/dev/" !in devices && EntryFor(varFstab, defFstab, "/dev").Some?
              && CarriedOut(kernel, 0, 1 + |devices|)
    ensures finished ==> Paths(log) == ["/dev"] + devices
  {
    hide CarriedOut;
    CarriedOutJoins(kernel, 0, 1, 1 + |devices|);
    log, finished := [], false;
    var e := LookupMountEntry("/dev", varFstab, defFstab);
    if e.None? || !kernel(0) {
      return;
    }
    log := [Mount(e.value)];
    var made;
    made, finished := MakeDevices(devices, kernel, 1);
    CarriedOutJoins(kernel, 0, 1, 1 + |made|);
    PathsAppend(log, made);
    log := log + made;
    assert forall i | 1 <= i < |log| :: log[i] == made[i - 1] && log[i] in made;
    Prefixes(["/dev"], Paths(made), devices, []);
  }

  /**
   The rest of `setup_mountpoints`, as the sequence of things done before it
   ends or dies: mount /dev, make the devices, mount /dev/shm, mount the others.
   It ends exactly when everything can be looked up and the kernel carries out
   every step.
   */
  method SetUp(
    devices: seq<string>, mounts: seq<string>, varFstab: seq<MountEntry>, defFstab: seq<MountEntry>, kernel: nat -> bool)
    returns (log: seq<Action>, finished: bool)
    ensures Paths(log) <= SetupOrder(devices, mounts) && UsesTable(log, varFstab, defFstab)
    ensures forall i | 0 <= i < |log| :: log[i].MakeDevice? <==> 1 <= i <= |devices|
    ensures CarriedOut(kernel, 0, |log|)
    ensures finished <==>
              && Supported(devices, mounts, varFstab, defFstab)
              && CarriedOut(kernel, 0, |SetupOrder(devices, mounts)|)
    ensures finished ==> Paths(log) == SetupOrder(devices, mounts)
  {
    hide CarriedOut, UsesTable, EntryFor;
    var n := |devices| + 2;
    CarriedOutJoins(kernel, 0, n - 1, n);
    CarriedOutJoins(kernel, 0, n - 1, n + |mounts|);
    CarriedOutJoins(kernel, 0, n, n + |mounts|);
    log, finished := SetUpDev(devices, varFstab, defFstab, kernel);
    assert |log| == |Paths(log)| <= n - 1;
    Prefixes([], Paths(log), ["/dev"] + devices, ["/dev/shm"] + mounts);
    if !finished {
      return;
    }
    finished := false;
    var e := LookupMountEntry("/dev/shm", varFstab, defFstab);
    if e.None? || !kernel(n - 1) {
      return;
    }
    EntryDir(varFstab, defFstab, "/dev/shm");
    MountOne(log, e.value, varFstab, defFstab);
    log := log + [Mount(e.value)];
    var mounted;
    mounted, finished := MountAll(mounts, varFstab, defFstab, kernel, n);
    CarriedOutJoins(kernel, 0, n, n + |mounted|);
    PathsAppend(log, mounted);
    UsesTableAppend(log, mounted, varFstab, defFstab);
    Prefixes(Paths(log), Paths(mounted), mounts, []);
    assert forall i | 0 <= i < |mounted| :: mounted[i] in mounted;
    log := log + mounted;
  }

  lemma EntryDir(varFstab: seq<MountEntry>, defFstab: seq<MountEntry>, d: string)
    requires EntryFor(varFstab, defFstab, d).Some?
    ensures EntryFor(varFstab, defFstab, d).value.dir == d
  {
  }

  lemma MountOne(log: seq<Action>, e: MountEntry, varFstab: seq<MountEntry>, defFstab: seq<MountEntry>)
    requires UsesTable(log, varFstab, defFstab) && EntryFor(varFstab, defFstab, e.dir) == Some(e)
    ensures UsesTable(log + [Mount(e)], varFstab, defFstab)
    ensures Paths(log + [Mount(e)]) == Paths(log) + [e.dir]
  {
  }

  lemma Prefixes(front: seq<string>, part: seq<string>, whole: seq<string>, rest: seq<string>)
    requires part <= whole
    ensures front + part <= front + whole + rest
    ensures front + whole + rest == front + (whole + rest)
  {
    assert whole == part + whole[|part|..];
    assert front + whole + rest == (front + part) + (whole[|part|..] + rest);
  }

  // ------------------------------------------------------------- correctness

  lemma {:induction false} SelectMembers(
    items: seq<string>, v: Verdict, devices: seq<Option<string>>, mountpoints: seq<Option<string>>)
    ensures forall x :: x in Select(items, v, devices, mountpoints) <==>
                        x in items && VerdictOn(x, devices, mountpoints) == v
  {
    if items != [] {
      SelectMembers(items[..|items| - 1], v, devices, mountpoints);
      assert items == items[..|items| - 1] + [items[|items| - 1]];
    }
  }

  /** Filtering keeps the order. */
  lemma {:induction false} SelectKeepsOrder(
    items: seq<string>, v: Verdict, devices: seq<Option<string>>, mountpoints: seq<Option<string>>)
    requires StrList.StrictlySorted(items)
    ensures StrList.StrictlySorted(Select(items, v, devices, mountpoints))
  {
    if items != [] {
      var front, last := items[..|items| - 1], items[|items| - 1];
      SelectKeepsOrder(front, v, devices, mountpoints);
      SelectMembers(front, v, devices, mountpoints);
      var s := Select(front, v, devices, mountpoints);
      forall i | 0 <= i < |s|
        ensures StrList.Leq(s[i], last) && s[i] != last
      {
        assert s[i] in s;
        var k :| 0 <= k < |front| && front[k] == s[i];
        assert items[k] == front[k];
      }
    }
  }

  /**
   Each distinct requested item other than /dev and /dev/shm lands in exactly
   one of the two vectors, and exactly once; nothing else lands in either.
   */
  lemma EachItemLandsOnce(value: string, devices: seq<Option<string>>, mountpoints: seq<Option<string>>, x: string)
    requires forall y | y in StrList.Kept(StrList.ParsedEntries(value)) :: !Forbidden(y, devices, mountpoints)
    ensures var items := StrList.Kept(StrList.ParsedEntries(value));
            multiset(Select(items, ToDevices, devices, mountpoints))[x]
            + multiset(Select(items, ToMounts, devices, mountpoints))[x]
            == if x in Tokens.All(value, StrList.DELIMITERS) && x != "/dev" && x != "/dev/shm" then 1 else 0
  {
    var items := StrList.Kept(StrList.ParsedEntries(value));
    StrList.ParsedIsSortedSet(value);
    var d := Select(items, ToDevices, devices, mountpoints);
    var m := Select(items, ToMounts, devices, mountpoints);
    SelectMembers(items, ToDevices, devices, mountpoints);
    SelectMembers(items, ToMounts, devices, mountpoints);
    SelectKeepsOrder(items, ToDevices, devices, mountpoints);
    SelectKeepsOrder(items, ToMounts, devices, mountpoints);
    AtMostOnce(d, x);
    AtMostOnce(m, x);
    assert x in multiset(d) <==> x in d;
    assert x in multiset(m) <==> x in m;
  }

  lemma {:induction false} AtMostOnce(s: seq<string>, x: string)
    requires StrList.StrictlySorted(s)
    ensures multiset(s)[x] <= 1
  {
    if s != [] {
      var front, last := s[..|s| - 1], s[|s| - 1];
      AtMostOnce(front, x);
      assert s == front + [last];
      if x == last {
        assert x !in front;
        assert x !in multiset(front);
      }
    }
  }

  /** Path a is a proper ancestor of path b. */
  predicate Ancestor(a: string, b: string) {
    a < b && b[|a|] == '/'
  }

  lemma AncestorLeq(a: string, b: string)
    requires Ancestor(a, b)
    ensures StrList.Leq(a, b) && a != b
  {
    StrList.PrefixLeq(a, b);
  }

  lemma NotBefore(s: seq<string>, i: nat, j: nat)
    requires StrList.StrictlySorted(s) && i < |s| && j < |s| && Ancestor(s[i], s[j])
    ensures i < j
  {
    AncestorLeq(s[i], s[j]);
    StrList.LeqTotal(s[i], s[j]);
  }

  /** Every path is set up after each of its ancestors that is set up at all. */
  predicate AncestorsFirst(order: seq<string>) {
    forall i, j | 0 <= i < |order| && 0 <= j < |order| && Ancestor(order[i], order[j]) :: i < j
  }

  /** No device lies beneath /dev/shm or beneath a requested mount point. */
  ghost predicate NoHiddenDevice(devices: seq<string>, mounts: seq<string>) {
    forall d, m | d in devices && (m == "/dev/shm" || m in mounts) :: !Ancestor(m, d)
  }

  /** Among the requested mount points, an ancestor is mounted before its descendants. */
  lemma MountsAncestorsFirst(
    items: seq<string>, devices: seq<Option<string>>, mountpoints: seq<Option<string>>)
    requires StrList.StrictlySorted(items)
    ensures AncestorsFirst(Select(items, ToMounts, devices, mountpoints))
  {
    SelectKeepsOrder(items, ToMounts, devices, mountpoints);
    var m := Select(items, ToMounts, devices, mountpoints);
    forall i, j | 0 <= i < |m| && 0 <= j < |m| && Ancestor(m[i], m[j])
      ensures i < j
    {
      NotBefore(m, i, j);
    }
  }

  lemma VerdictShape(x: string, devices: seq<Option<string>>, mountpoints: seq<Option<string>>)
    requires VerdictOn(x, devices, mountpoints).ToDevices? || VerdictOn(x, devices, mountpoints).ToMounts?
    ensures "/" <= x && !Ancestor(x, "/dev") && !Ancestor(x, "/dev/shm")
    ensures x != "/dev" && x != "/dev/shm"
  {
    assert "/dev/shm"[..4] == "/dev";
  }

  /** What classification guarantees of a planned path. */
  ghost predicate Planned(x: string) {
    && x != "/dev" && x != "/dev/shm"
    && !Ancestor(x, "/dev") && !Ancestor(x, "/dev/shm")
  }

  ghost predicate StrictlySortedPlans(d: seq<string>, m: seq<string>) {
    && StrList.StrictlySorted(d) && StrList.StrictlySorted(m)
    && (forall x | x in d :: Planned(x)) && (forall x | x in m :: Planned(x))
  }

  lemma OrderAt(d: seq<string>, m: seq<string>, i: nat)
    requires i < |SetupOrder(d, m)|
    ensures SetupOrder(d, m)[i] ==
      if i == 0 then "/dev" else if i <= |d| then d[i - 1] else if i == |d| + 1 then "/dev/shm" else m[i - |d| - 2]
  {
  }

  lemma PairInOrder(d: seq<string>, m: seq<string>, i: nat, j: nat)
    requires StrictlySortedPlans(d, m) && NoHiddenDevice(d, m)
    requires i < |SetupOrder(d, m)| && j < |SetupOrder(d, m)|
    requires Ancestor(SetupOrder(d, m)[i], SetupOrder(d, m)[j])
    ensures i < j
  {
    var shm := |d| + 1;
    OrderAt(d, m, i);
    OrderAt(d, m, j);
    if 0 < i < shm {
      assert Planned(d[i - 1]);
      if 0 < j < shm {
        NotBefore(d, i - 1, j - 1);
      }
    } else if i > shm {
      assert Planned(m[i - shm - 1]);
      if j > shm {
        NotBefore(m, i - shm - 1, j - shm - 1);
      }
    }
  }

  /**
   The whole setup order: /dev comes before everything beneath it, /dev/shm
   before every mount point beneath it, mount points before mount points
   beneath them. Devices are made before /dev/shm and before every requested
   mount point, so the order puts all ancestors first exactly when no
   requested device lies beneath one of those.
   */
  lemma SetupOrderIsSafe(items: seq<string>, devices: seq<Option<string>>, mountpoints: seq<Option<string>>)
    requires StrList.StrictlySorted(items)
    ensures var d := Select(items, ToDevices, devices, mountpoints);
            var m := Select(items, ToMounts, devices, mountpoints);
            AncestorsFirst(SetupOrder(d, m)) <==> NoHiddenDevice(d, m)
  {
    var d := Select(items, ToDevices, devices, mountpoints);
    var m := Select(items, ToMounts, devices, mountpoints);
    var order := SetupOrder(d, m);
    SelectMembers(items, ToDevices, devices, mountpoints);
    SelectMembers(items, ToMounts, devices, mountpoints);
    SelectKeepsOrder(items, ToDevices, devices, mountpoints);
    SelectKeepsOrder(items, ToMounts, devices, mountpoints);
    forall x | x in d || x in m
      ensures Planned(x)
    {
      VerdictShape(x, devices, mountpoints);
    }
    if NoHiddenDevice(d, m) {
      OrderIsSafe(d, m);
    } else {
      OrderIsUnsafe(d, m);
    }
  }

  lemma OrderIsSafe(d: seq<string>, m: seq<string>)
    requires StrictlySortedPlans(d, m) && NoHiddenDevice(d, m)
    ensures AncestorsFirst(SetupOrder(d, m))
  {
    hide NoHiddenDevice, SetupOrder, Ancestor;
    var order := SetupOrder(d, m);
    forall i, j | 0 <= i < |order| && 0 <= j < |order| && Ancestor(order[i], order[j])
      ensures i < j
    {
      PairInOrder(d, m, i, j);
    }
  }

  lemma OrderIsUnsafe(d: seq<string>, m: seq<string>)
    requires !NoHiddenDevice(d, m)
    ensures !AncestorsFirst(SetupOrder(d, m))
  {
    hide Ancestor;
    var x, y :| x in d && (y == "/dev/shm" || y in m) && Ancestor(y, x);
    var j :| 0 <= j < |d| && d[j] == x;
    OrderAt(d, m, j + 1);
    if y in m {
      var i :| 0 <= i < |m| && m[i] == y;
      OrderAt(d, m, |d| + 2 + i);
    } else {
      OrderAt(d, m, |d| + 1);
    }
  }

  lemma HiddenVerdict(x: string)
    requires Ancestor("/dev/shm", x)
    ensures VerdictOn(x, [Some(x)], []) == ToDevices
  {
    var shm := "/dev/shm";
    assert x[..1] == shm[..1] && x[1] == shm[1];
    assert x[..5] == shm[..5] == "/dev/";
    assert [Some(x)][0] == Some(x);
  }

  /**
   A device requested and allowed beneath /dev/shm passes every check, and is
   made before /dev/shm is mounted over it.
   */
  lemma HiddenDevice(x: string)
    requires Tokens.IsToken(x, StrList.DELIMITERS) && Ancestor("/dev/shm", x)
    ensures var items := StrList.Kept(StrList.ParsedEntries(x));
            && items == [x] && VerdictOn(x, [Some(x)], []) == ToDevices
            && !AncestorsFirst(SetupOrder(
                 Select(items, ToDevices, [Some(x)], []), Select(items, ToMounts, [Some(x)], [])))
  {
    hide VerdictOn, AncestorsFirst, SetupOrder, Ancestor;
    var devices, mountpoints := [Some(x)], [];
    StrList.SingleEntry(x);
    HiddenVerdict(x);
    SelectStep([], x, ToDevices, devices, mountpoints);
    SelectStep([], x, ToMounts, devices, mountpoints);
    assert [] + [x] == [x];
    var d := Select([x], ToDevices, devices, mountpoints);
    assert d == [x] && x in d;
    assert StrList.StrictlySorted([x]);
    SetupOrderIsSafe([x], devices, mountpoints);
    assert !NoHiddenDevice(d, Select([x], ToMounts, devices, mountpoints));
  }

  lemma HiddenDeviceExample()
    ensures var items := StrList.Kept(StrList.ParsedEntries("/dev/shm/x"));
            !AncestorsFirst(SetupOrder(
              Select(items, ToDevices, [Some("/dev/shm/x")], []), Select(items, ToMounts, [Some("/dev/shm/x")], [])))
  {
    hide VerdictOn, AncestorsFirst, SetupOrder, Select;
    var x := "/dev/shm/x";
    assert x[..8] == "/dev/shm" && x[8] == '/';
    HiddenDevice(x);
  }

  /** The entry used is the first for its directory, the configured table before the built-in one; none if neither has any. */
  lemma {:induction false} EntryForIsFirst(varFstab: seq<MountEntry>, defFstab: seq<MountEntry>, dir: string, n: nat)
    requires n <= |varFstab| + |defFstab| && (n < |varFstab| + |defFstab| ==> (varFstab + defFstab)[n].dir == dir)
    requires forall i | 0 <= i < n :: (varFstab + defFstab)[i].dir != dir
    ensures EntryFor(varFstab, defFstab, dir) ==
            if n < |varFstab| + |defFstab| then Some((varFstab + defFstab)[n]) else None
  {
    var all := varFstab + defFstab;
    if n < |varFstab| {
      assert forall i | 0 <= i <= n :: varFstab[i] == all[i];
      FirstAt(varFstab, dir, n);
    } else {
      assert forall i | 0 <= i < |varFstab| :: varFstab[i] == all[i];
      assert forall i | 0 <= i < |defFstab| :: defFstab[i] == all[|varFstab| + i];
      FirstAt(varFstab, dir, |varFstab|);
      FirstAt(defFstab, dir, n - |varFstab|);
    }
  }

  lemma {:induction false} FirstAt(fstab: seq<MountEntry>, dir: string, n: nat)
    requires n <= |fstab| && (n < |fstab| ==> fstab[n].dir == dir) && forall i | 0 <= i < n :: fstab[i].dir != dir
    ensures FirstWithDir(fstab, dir) == if n < |fstab| then Some(fstab[n]) else None
  {
    if n > 0 {
      FirstAt(fstab[1..], dir, n - 1);
    }
  }
}
