/** Path resolution over mount points: the iterator template and the root file system. */
module Rootfs {
  import opened Machine
  import opened MountPaths

  /** What a file system finds under a name in the directory that a stack of names leads to. */
  datatype Found = IsDirectory | IsFile | IsMissing

  type Lookup = (seq<string>, string) -> Found

  /** Answers of operator<<; Halted is a failed assertion. */
  datatype Status = DirEntry | FileEntry | Underrun | NotPresent | Halted

  /** coh_dit over an iterator that keeps the names of the directories it went into. */
  class CohDit {
    const look: Lookup
    var names: seq<string>

    constructor (look: Lookup)
      ensures this.look == look && names == []
    {
      this.look, names := look, [];
    }

    method Push(str: string) returns (r: Status)
      modifies this
      ensures str == ".." && old(names) == [] ==> r == Underrun
      ensures str == ".." && old(names) != [] ==> r == DirEntry && names == old(names)[..|old(names)| - 1]
      ensures str == "." ==> r == DirEntry && names == old(names)
      ensures str != "." && str != ".." ==>
                && r == (match look(old(names), str)
                         case IsDirectory => DirEntry
                         case IsFile => FileEntry
                         case IsMissing => NotPresent)
                && (r == DirEntry ==> names == old(names) + [str])
      ensures r != DirEntry ==> names == old(names)
    {
      if |str| > 0 && str[0] == '.' {
        if |str| == 2 && str[1] == '.' {
          if |names| > 0 {
            names := names[..|names| - 1];
            return DirEntry;
          }
          return Underrun;
        } else if |str| == 1 {
          return DirEntry;
        }
      }
      match look(names, str) {
        case IsDirectory =>
          names := names + [str];
          return DirEntry;
        case IsFile => return FileEntry;
        case IsMissing => return NotPresent;
      }
    }

    method GetCanonicalPath() returns (acc: string)
      ensures acc == Joined(names)
    {
      acc := "/";
      for i := 0 to |names|
        invariant acc == Joined(names[..i])
      {
        assert names[..i + 1] == names[..i] + [names[i]];
        JoinedPush(names[..i], names[i]);
        acc := acc + names[i] + "/";
      }
      assert names[..|names|] == names;
    }
  }

  const MOUNTS: nat := 256
  const LEVELS: nat := 32

  datatype Mount = Free | Mounted(look: Lookup, path: string)

  ghost predicate MountedPath(mnts: seq<Mount>, path: string, i: nat) {
    i < |mnts| && mnts[i].Mounted? && mnts[i].path == path
  }

  ghost predicate FirstFree(mnts: seq<Mount>, i: nat) {
    i < |mnts| && mnts[i] == Free && forall j :: 0 <= j < i ==> mnts[j].Mounted?
  }

  /** The entry that lookup_mnt finds. */
  ghost predicate FirstMount(mnts: seq<Mount>, path: string, i: nat) {
    MountedPath(mnts, path, i) && forall j: nat :: j < i ==> !MountedPath(mnts, path, j)
  }

  ghost predicate IsMount(mnts: seq<Mount>, path: string) {
    exists i: nat :: MountedPath(mnts, path, i)
  }

  class Rootfs {
    var mnts: seq<Mount>

    ghost predicate Valid()
      reads this
    {
      |mnts| == 256
    }

    constructor ()
      ensures Valid() && forall i :: 0 <= i < MOUNTS ==> mnts[i] == Free
    {
      mnts := seq(MOUNTS, i => Free);
    }

    /** The first entry with the path, and None exactly when there is none. */
    method LookupMnt(s: string) returns (r: Option<nat>)
      requires Valid()
      ensures r.None? <==> !IsMount(mnts, s)
      ensures r.Some? ==> FirstMount(mnts, s, r.value)
    {
      for i := 0 to MOUNTS
        invariant forall j: nat :: j < i ==> !MountedPath(mnts, s, j)
      {
        if mnts[i].Mounted? && mnts[i].path == s {
          assert MountedPath(mnts, s, i);
          return Some(i);
        }
      }
      return None;
    }

    /** Takes the first free entry; false stands for the exception when all are taken. */
    method Mount(look: Lookup, path: string) returns (ok: bool)
      requires Valid()
      modifies this
      ensures Valid() && (ok <==> exists i :: 0 <= i < MOUNTS && old(mnts)[i] == Free)
      ensures !ok ==> mnts == old(mnts)
      ensures ok ==> exists i: nat :: FirstFree(old(mnts), i) && mnts == old(mnts)[i := Mounted(look, path)]
      ensures ok ==> IsMount(mnts, path) && forall p :: p != path ==> (IsMount(mnts, p) <==> IsMount(old(mnts), p))
      ensures forall i :: 0 <= i < MOUNTS && old(mnts)[i].Mounted? ==> mnts[i] == old(mnts)[i]
    {
      var i := 0;
      while i < MOUNTS && mnts[i].Mounted?
        invariant i <= MOUNTS && forall j :: 0 <= j < i ==> mnts[j].Mounted?
      {
        i := i + 1;
      }
      if i == MOUNTS { return false; }
      ghost var before := mnts;
      mnts := mnts[i := Mounted(look, path)];
      assert MountedPath(mnts, path, i);
      assert FirstFree(before, i);
      forall p | p != path ensures IsMount(mnts, p) <==> IsMount(before, p) {
        if k: nat :| MountedPath(before, p, k) { assert MountedPath(mnts, p, k); }
        if k: nat :| MountedPath(mnts, p, k) { assert MountedPath(before, p, k); }
      }
      return true;
    }
  }

  datatype Level = Level(di: CohDit, offset: nat)

  function Names(stk: seq<Level>): seq<seq<string>>
    reads set l | l in stk :: l.di
  {
    seq(|stk|, i requires 0 <= i < |stk| reads set l | l in stk :: l.di => stk[i].di.names)
  }

  function Paths(stk: seq<Level>, mnts: seq<Mount>): seq<string>
    requires forall i :: 0 <= i < |stk| ==> stk[i].offset < |mnts| && mnts[stk[i].offset].Mounted?
  {
    seq(|stk|, i requires 0 <= i < |stk| => mnts[stk[i].offset].path)
  }

  ghost predicate LevelsOk(stk: seq<Level>, mnts: seq<Mount>) {
    && |stk| <= 32
    && (forall i :: 0 <= i < |stk| ==> stk[i].offset < |mnts| && mnts[stk[i].offset].Mounted?
                                       && stk[i].di.look == mnts[stk[i].offset].look)
    && forall i, j :: 0 <= i < j < |stk| ==> stk[i].di != stk[j].di
  }

  class RootfsDit {
    const parent: Rootfs
    /** Entries 0 to stk_top of the stack. */
    var stk: seq<Level>
    /** The name each of them was entered by. */
    ghost var via: seq<string>

    ghost predicate Valid()
      reads this, parent, set l | l in stk :: l.di
    {
      && parent.Valid() && LevelsOk(stk, parent.mnts)
      && MountedAt(via, Names(stk), Paths(stk, parent.mnts))
    }

    /** The stack of names entered from the root. */
    ghost function Stack(): seq<string>
      reads this, set l | l in stk :: l.di
      requires |via| == |stk|
    {
      Entered(via, Names(stk))
    }

    constructor (parent: Rootfs)
      requires parent.Valid()
      ensures Valid() && this.parent == parent && stk == [] && Stack() == []
    {
      this.parent, stk, via := parent, [], [];
    }

    /** The path is the slash-joined stack of names entered, whatever mounts it runs through. */
    method GetCanonicalPath() returns (r: string)
      requires Valid()
      ensures r == Joined(Stack())
    {
      CanonicalIsJoined(via, Names(stk), Paths(stk, parent.mnts));
      if |stk| == 0 { return "/"; }
      var top := stk[|stk| - 1];
      var below := top.di.GetCanonicalPath();
      return parent.mnts[top.offset].path + below;
    }

    /** One level more, at the start of the file system mounted first at the path. */
    ghost predicate Deeper(before: seq<Level>, path: string)
      requires Valid()
      reads this, parent, set l | l in stk :: l.di
    {
      && |stk| == |before| + 1 && stk[..|before|] == before
      && FirstMount(parent.mnts, path, stk[|before|].offset) && stk[|before|].di.names == []
    }

    /** A new iterator of the mounted file system goes on the stack; the 33rd fails an assertion. */
    method Descend(i: nat, str: string) returns (r: Status)
      requires Valid() && FirstMount(parent.mnts, Joined(Stack()) + str, i)
      modifies this
      ensures Valid() && (r == Halted <==> |old(stk)| == LEVELS) && (r == Halted || r == DirEntry)
      ensures Stack() == if r == Halted then old(Stack()) else old(Stack()) + [str]
      ensures if r == Halted then stk == old(stk) else Deeper(old(stk), Joined(old(Stack())) + str)
      ensures fresh(set l | l in stk && l !in old(stk) :: l.di)
    {
      hide MountedAt, Joined, Entered;
      if |stk| == LEVELS { return Halted; }
      var di := new CohDit(parent.mnts[i].look);
      EnterMount(via, Names(stk), Paths(stk, parent.mnts), str);
      ghost var names, paths := Names(stk), Paths(stk, parent.mnts);
      AddLevel(stk, parent.mnts, Level(di, i));
      stk := stk + [Level(di, i)];
      via := via + [str];
      assert Names(stk) == names + [[]];
      assert Paths(stk, parent.mnts) == paths + [Joined(old(Stack())) + str];
      return DirEntry;
    }

    /** What the file system on top has under the name; nothing at the root. */
    ghost function Here(str: string): Found
      requires Valid()
      reads this, parent, set l | l in stk :: l.di
    {
      if stk == [] then IsMissing else stk[|stk| - 1].di.look(stk[|stk| - 1].di.names, str)
    }

    /** The file system on top is at its own root. */
    ghost predicate AtTop()
      reads this, set l | l in stk :: l.di
    {
      stk != [] && stk[|stk| - 1].di.names == []
    }

    /** A name that no file system on top knows: the mount table decides. */
    method TryMount(path: string, str: string) returns (r: Status)
      requires Valid() && path == Joined(Stack()) + str
      modifies this
      ensures Valid() && fresh(set l | l in stk && l !in old(stk) :: l.di)
      ensures r == if !IsMount(parent.mnts, path) then NotPresent else if |old(stk)| == LEVELS then Halted else DirEntry
      ensures Stack() == if r == DirEntry then old(Stack()) + [str] else old(Stack())
      ensures if r == DirEntry then Deeper(old(stk), path) else stk == old(stk)
    {
      var mntid := parent.LookupMnt(path);
      if mntid.None? { return NotPresent; }
      r := Descend(mntid.value, str);
    }

    /** operator<<: what it answers to every name, and what that does to the stack of names. */
    method Feed(str: string) returns (r: Status)
      requires Valid()
      modifies this, set l | l in stk :: l.di
      ensures Valid()
      ensures Stack() == Moved(old(Stack()), str, r)
      ensures str in ["", ".", ".."] ==> r == DirEntry
      ensures str !in ["", ".", ".."] ==>
                r == match old(Here(str))
                     case IsDirectory => DirEntry
                     case IsFile => FileEntry
                     case IsMissing =>
                       if !IsMount(parent.mnts, Joined(old(Stack())) + str) then NotPresent
                       else if |old(stk)| == LEVELS then Halted else DirEntry
      ensures fresh(set l | l in stk && l !in old(stk) :: l.di)
      ensures if str !in ["", ".", ".."] && old(Here(str)).IsMissing? && r == DirEntry then
                Deeper(old(stk), Joined(old(Stack())) + str)
              else stk == if old(AtTop()) && str == ".." then old(stk)[..|old(stk)| - 1] else old(stk)
    {
      hide MountedAt, Joined, Entered, IsMount;
      if str == "" { return DirEntry; }
      if |stk| == 0 {
        RootStack(via, Names(stk), Paths(stk, parent.mnts));
        if str == "." || str == ".." { return DirEntry; }
        r := TryMount("/" + str, str);
      } else {
        r := FeedTop(str);
        if r == NotPresent {
          var path := GetCanonicalPath();
          r := TryMount(path + str, str);
        }
      }
    }

    /** Feeds names one by one, until one is not answered with a directory. */
    method Walk(steps: seq<string>) returns (ok: bool)
      requires Valid()
      modifies this, set l | l in stk :: l.di
      ensures Valid() && fresh(set l | l in stk && l !in old(stk) :: l.di)
      ensures ok ==> Stack() == Walked(old(Stack()), steps)
      ensures !ok ==> exists j ::
                0 <= j < |steps| && steps[j] !in ["", ".", ".."] && Stack() == Walked(old(Stack()), steps[..j])
    {
      hide PathAt, Joined, Entered, IsMount, FirstMount, LevelsOk;
      ghost var start, before := Stack(), stk;
      for i := 0 to |steps|
        invariant Valid() && fresh(set l | l in stk && l !in before :: l.di)
        invariant Stack() == Walked(start, steps[..i])
      {
        var r := Feed(steps[i]);
        assert steps[..i + 1][..i] == steps[..i];
        if r != DirEntry { return false; }
      }
      assert steps[..|steps|] == steps;
      return true;
    }

    /** Down through directories and mount points, and up again as often: the iterator is where it was. */
    method ThereAndBack(down: seq<string>) returns (ok: bool)
      requires Valid() && forall i :: 0 <= i < |down| ==> down[i] !in ["", ".", ".."]
      modifies this, set l | l in stk :: l.di
      ensures Valid() && (ok ==> Stack() == old(Stack()))
    {
      hide PathAt, Joined, Entered, LevelsOk;
      ghost var start := Stack();
      ok := Walk(down);
      if !ok { return; }
      var up := Ups(|down|);
      var back := Walk(up);
      UpsOnly(|down|);
      assert back;
      WalkedConcat(start, down, up);
      WalkBack(start, down);
    }

    /** The part of operator<< that asks the iterator on top; NotPresent is left to the mount table. */
    method FeedTop(str: string) returns (r: Status)
      requires Valid() && |stk| > 0 && str != ""
      modifies this, set l | l in stk :: l.di
      ensures Valid()
      ensures stk == if old(AtTop()) && str == ".." then old(stk)[..|old(stk)| - 1] else old(stk)
      ensures Stack() == Moved(old(Stack()), str, r)
      ensures str in [".", ".."] ==> r == DirEntry
      ensures str !in [".", ".."] ==>
                r == match old(Here(str))
                     case IsDirectory => DirEntry
                     case IsFile => FileEntry
                     case IsMissing => NotPresent
    {
      hide MountedAt, Joined, Entered, FirstMount, IsMount;
      var k := |stk| - 1;
      ghost var names, paths := Names(stk), Paths(stk, parent.mnts);
      var top := stk[k].di;
      assert stk[k] in stk;
      Moves(via, names, paths, str);
      r := top.Push(str);
      assert Names(stk) == names[k := top.names];
      if r == Underrun {
        DropLevel(stk, parent.mnts);
        assert Names(stk[..k]) == names[..k];
        stk := stk[..k];
        via := via[..k];
        return DirEntry;
      }
      assert r != DirEntry || str == "." ==> Names(stk) == names;
    }
  }

  /** The stack of names after an answer. */
  function Moved(names: seq<string>, str: string, r: Status): seq<string> {
    if r != DirEntry || str == "" || str == "." then names
    else if str == ".." then (if names == [] then names else names[..|names| - 1])
    else names + [str]
  }

  /** ".." undoes the last descent, by whatever name it was made. */
  lemma DotDotUndoes(names: seq<string>, str: string)
    requires str !in ["", ".", ".."]
    ensures Moved(Moved(names, str, DirEntry), "..", DirEntry) == names
  {}

  /** The stack of names after steps that all succeed. */
  function Walked(names: seq<string>, steps: seq<string>): seq<string> {
    if steps == [] then names else Moved(Walked(names, steps[..|steps| - 1]), steps[|steps| - 1], DirEntry)
  }

  function Ups(n: nat): seq<string> {
    if n == 0 then [] else Ups(n - 1) + [".."]
  }

  lemma {:induction false} UpsOnly(n: nat)
    ensures |Ups(n)| == n && forall i :: 0 <= i < n ==> Ups(n)[i] == ".."
  {
    if n > 0 { UpsOnly(n - 1); }
  }

  lemma {:induction false} WalkedConcat(names: seq<string>, a: seq<string>, b: seq<string>)
    ensures Walked(names, a + b) == Walked(Walked(names, a), b)
  {
    if b == [] {
      assert a + b == a;
    } else {
      assert (a + b)[..|a + b| - 1] == a + b[..|b| - 1];
      WalkedConcat(names, a, b[..|b| - 1]);
    }
  }

  /** As many ".." as descents lead back, however the descents went through directories and mounts. */
  lemma {:induction false} WalkBack(names: seq<string>, steps: seq<string>)
    requires forall i :: 0 <= i < |steps| ==> steps[i] !in ["", ".", ".."]
    ensures Walked(names, steps + Ups(|steps|)) == names
  {
    if steps != [] {
      WalkBackFrom(names, steps, |steps|);
      assert steps[..0] == [];
    }
  }

  lemma {:induction false} WalkBackFrom(names: seq<string>, steps: seq<string>, n: nat)
    requires n <= |steps| && forall i :: 0 <= i < |steps| ==> steps[i] !in ["", ".", ".."]
    ensures Walked(names, steps + Ups(n)) == Walked(names, steps[..|steps| - n])
  {
    if n == 0 {
      assert steps + Ups(0) == steps && steps[..|steps|] == steps;
    } else {
      var all := steps + Ups(n);
      assert all[..|all| - 1] == steps + Ups(n - 1);
      WalkBackFrom(names, steps, n - 1);
      var k := |steps| - n;
      assert steps[..k + 1][..k] == steps[..k];
      DotDotUndoes(Walked(names, steps[..k]), steps[k]);
    }
  }

  lemma RootStack(via: seq<string>, levels: seq<seq<string>>, paths: seq<string>)
    requires MountedAt(via, levels, paths) && levels == []
    ensures via == []
    ensures Entered(via, levels) == [] && Joined([]) == "/"
  {}

  /** The three ways the top level can change. */
  lemma Moves(via: seq<string>, levels: seq<seq<string>>, paths: seq<string>, str: string)
    requires MountedAt(via, levels, paths) && levels != []
    ensures var k := |levels| - 1;
            var e := Entered(via, levels);
            && |via| == |levels| == |paths|
            && MountedAt(via, levels[k := levels[k] + [str]], paths)
            && Entered(via, levels[k := levels[k] + [str]]) == e + [str]
            && e != []
            && (levels[k] != [] ==>
                  var up := levels[k := levels[k][..|levels[k]| - 1]];
                  MountedAt(via, up, paths) && Entered(via, up) == e[..|e| - 1])
            && (levels[k] == [] ==>
                  MountedAt(via[..k], levels[..k], paths[..k]) && Entered(via[..k], levels[..k]) == e[..|e| - 1])
  {
    EnterDirectory(via, levels, paths, str);
    if levels[|levels| - 1] != [] { LeaveDirectory(via, levels, paths); } else { LeaveMount(via, levels, paths); }
  }

  lemma DropLevel(stk: seq<Level>, mnts: seq<Mount>)
    requires LevelsOk(stk, mnts) && stk != []
    ensures var k := |stk| - 1;
            LevelsOk(stk[..k], mnts) && Paths(stk[..k], mnts) == Paths(stk, mnts)[..k]
  {}

  /** Mounting more keeps every iterator where it is. */
  lemma MoreMounts(stk: seq<Level>, mnts: seq<Mount>, mnts': seq<Mount>)
    requires LevelsOk(stk, mnts) && |mnts'| == |mnts|
    requires forall i :: 0 <= i < |mnts| && mnts[i].Mounted? ==> mnts'[i] == mnts[i]
    ensures LevelsOk(stk, mnts') && Paths(stk, mnts') == Paths(stk, mnts)
  {}

  lemma AddLevel(stk: seq<Level>, mnts: seq<Mount>, l: Level)
    requires LevelsOk(stk, mnts) && |stk| < LEVELS && l.offset < |mnts| && mnts[l.offset].Mounted?
    requires l.di.look == mnts[l.offset].look && forall k :: k in stk ==> k.di != l.di
    ensures LevelsOk(stk + [l], mnts) && Paths(stk + [l], mnts) == Paths(stk, mnts) + [mnts[l.offset].path]
  {
    forall i | 0 <= i < |stk| ensures stk[i].di != l.di { assert stk[i] in stk; }
  }
}
