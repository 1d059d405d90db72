/** Paths as stacks of names, and a stack of directory iterators seen as one of them. */
module MountPaths {

  /** "/" and every name followed by "/", as coh_dit spells a path. */
  function Joined(names: seq<string>): string {
    if names == [] then "/" else Joined(names[..|names| - 1]) + names[|names| - 1] + "/"
  }

  lemma JoinedPush(names: seq<string>, s: string)
    ensures Joined(names + [s]) == Joined(names) + s + "/"
  {
    assert (names + [s])[..|names|] == names;
  }

  /** A path below a mount point. */
  lemma {:induction false} JoinedBelow(above: seq<string>, s: string, below: seq<string>)
    ensures Joined(above + [s] + below) == Joined(above) + s + Joined(below)
  {
    if below == [] {
      assert above + [s] + below == above + [s];
      JoinedPush(above, s);
    } else {
      var k := |below| - 1;
      JoinedBelow(above, s, below[..k]);
      assert above + [s] + below == above + [s] + below[..k] + [below[k]];
      JoinedPush(above + [s] + below[..k], below[k]);
      Regroup(Joined(above) + s, Joined(below[..k]), below[k] + "/");
      assert Joined(below) == Joined(below[..k]) + (below[k] + "/");
    }
  }

  lemma Regroup(a: string, b: string, c: string)
    ensures a + b + c == a + (b + c)
  {}

  /** The names entered: each mount was entered by a name, and below it come the names of its iterator. */
  function Entered(via: seq<string>, levels: seq<seq<string>>): seq<string>
    requires |via| == |levels|
  {
    if via == [] then []
    else
      var k := |via| - 1;
      Entered(via[..k], levels[..k]) + [via[k]] + levels[k]
  }

  /** Mount point i is the path of the directory it hangs in, followed by its name. */
  ghost predicate MountedAt(via: seq<string>, levels: seq<seq<string>>, mountpath: seq<string>) {
    && |via| == |levels| == |mountpath|
    && forall i :: 0 <= i < |via| ==> PathAt(via, levels, mountpath, i)
  }

  ghost predicate PathAt(via: seq<string>, levels: seq<seq<string>>, mountpath: seq<string>, i: nat)
    requires |via| == |levels| == |mountpath| && i < |via|
  {
    mountpath[i] == Joined(Entered(via[..i], levels[..i])) + via[i]
  }

  /** What rootfs_dit answers for a path. */
  function Canonical(levels: seq<seq<string>>, mountpath: seq<string>): string
    requires |levels| == |mountpath|
  {
    if levels == [] then "/" else mountpath[|levels| - 1] + Joined(levels[|levels| - 1])
  }

  /** The path of the top iterator behind its mount point is the slash-joined stack of names entered. */
  lemma CanonicalIsJoined(via: seq<string>, levels: seq<seq<string>>, mountpath: seq<string>)
    requires MountedAt(via, levels, mountpath)
    ensures Canonical(levels, mountpath) == Joined(Entered(via, levels))
  {
    if via != [] {
      var k := |via| - 1;
      assert PathAt(via, levels, mountpath, k);
      JoinedBelow(Entered(via[..k], levels[..k]), via[k], levels[k]);
    }
  }

  // ---------- the moves ----------

  /** Entering a directory of the file system on top. */
  lemma EnterDirectory(via: seq<string>, levels: seq<seq<string>>, mountpath: seq<string>, s: string)
    requires MountedAt(via, levels, mountpath) && levels != []
    ensures var k := |levels| - 1;
            var levels' := levels[k := levels[k] + [s]];
            MountedAt(via, levels', mountpath) && Entered(via, levels') == Entered(via, levels) + [s]
  {
    var k := |levels| - 1;
    var levels' := levels[k := levels[k] + [s]];
    SameBelow(via, levels, levels', mountpath);
    var e := Entered(via[..k], levels[..k]) + [via[k]];
    assert levels'[..k] == levels[..k];
    assert e + (levels[k] + [s]) == e + levels[k] + [s];
  }

  /** Leaving it again. */
  lemma LeaveDirectory(via: seq<string>, levels: seq<seq<string>>, mountpath: seq<string>)
    requires MountedAt(via, levels, mountpath) && levels != [] && levels[|levels| - 1] != []
    ensures var k := |levels| - 1;
            var levels' := levels[k := levels[k][..|levels[k]| - 1]];
            var e := Entered(via, levels);
            MountedAt(via, levels', mountpath) && e != [] && Entered(via, levels') == e[..|e| - 1]
  {
    var k := |levels| - 1;
    var levels' := levels[k := levels[k][..|levels[k]| - 1]];
    SameBelow(via, levels, levels', mountpath);
    assert levels'[..k] == levels[..k];
  }

  /** Only the top level changed, so every mount point is where it was. */
  lemma SameBelow(via: seq<string>, levels: seq<seq<string>>, levels': seq<seq<string>>, mountpath: seq<string>)
    requires MountedAt(via, levels, mountpath) && |levels'| == |levels| > 0
    requires levels'[..|levels| - 1] == levels[..|levels| - 1]
    ensures MountedAt(via, levels', mountpath)
  {
    forall i | 0 <= i < |via| ensures PathAt(via, levels', mountpath, i) {
      assert PathAt(via, levels, mountpath, i);
      assert levels'[..i] == levels'[..|levels| - 1][..i] == levels[..i];
    }
  }

  /** Entering a mount point by the name it has in the current directory. */
  lemma EnterMount(via: seq<string>, levels: seq<seq<string>>, mountpath: seq<string>, s: string)
    requires MountedAt(via, levels, mountpath)
    ensures MountedAt(via + [s], levels + [[]], mountpath + [Joined(Entered(via, levels)) + s])
    ensures Entered(via + [s], levels + [[]]) == Entered(via, levels) + [s]
  {
    var via', levels', paths' := via + [s], levels + [[]], mountpath + [Joined(Entered(via, levels)) + s];
    assert via'[..|via|] == via && levels'[..|via|] == levels;
    forall i | 0 <= i < |via'| ensures PathAt(via', levels', paths', i) {
      if i < |via| {
        assert PathAt(via, levels, mountpath, i);
        assert via'[..i] == via[..i] && levels'[..i] == levels[..i];
      }
    }
  }

  /** Leaving a mount point from its top directory. */
  lemma LeaveMount(via: seq<string>, levels: seq<seq<string>>, mountpath: seq<string>)
    requires MountedAt(via, levels, mountpath) && levels != [] && levels[|levels| - 1] == []
    ensures var k := |levels| - 1;
            var e := Entered(via, levels);
            && MountedAt(via[..k], levels[..k], mountpath[..k]) && e != []
            && Entered(via[..k], levels[..k]) == e[..|e| - 1]
  {
    var k := |levels| - 1;
    forall i | 0 <= i < k ensures PathAt(via[..k], levels[..k], mountpath[..k], i) {
      assert PathAt(via, levels, mountpath, i);
      assert via[..k][..i] == via[..i] && levels[..k][..i] == levels[..i];
    }
  }
}
