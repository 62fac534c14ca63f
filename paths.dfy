/** Unix paths as strings, with the two operations of Rust's `Path` the
    version manager relies on: `join` and `file_name`. */
module Paths {
  import opened Results

  /** The pieces of `p` between '/' separators, empty pieces included. */
  function Segments(p: string): (r: seq<string>)
    ensures |r| >= 1
  {
    if p == [] then [""]
    else
      var rest := Segments(p[1..]);
      if p[0] == '/' then [""] + rest
      else [[p[0]] + rest[0]] + rest[1..]
  }

  /** Drops the pieces that name no component: empty ones (repeated or
      trailing separators) and "." (the current directory). */
  function Normal(segs: seq<string>): seq<string>
  {
    if segs == [] then []
    else (if segs[0] == "" || segs[0] == "." then [] else [segs[0]]) + Normal(segs[1..])
  }

  /** The components of a path as Rust's `Path::components` yields them,
      leaving out the root and a leading ".". */
  function Components(p: string): seq<string>
  {
    Normal(Segments(p))
  }

  predicate IsAbsolute(p: string)
  {
    |p| > 0 && p[0] == '/'
  }

  /** `Path::join`: an absolute `name` replaces `dir`; otherwise a separator
      is added unless `dir` is empty or already ends in one. */
  function Join(dir: string, name: string): string
  {
    if IsAbsolute(name) then name
    else if dir == [] then name
    else if dir[|dir| - 1] == '/' then dir + name
    else dir + "/" + name
  }

  /** A name that is exactly one ordinary path component. */
  predicate IsPlainName(n: string)
  {
    n != "" && n != "." && n != ".." && '/' !in n
  }

  /** `Path::file_name`: the last component, unless there is none or it is "..". */
  function FileName(p: string): (r: Option<string>)
    ensures r.Some? ==> IsPlainName(r.value)
  {
    var c := Components(p);
    SegmentsHaveNoSeparator(p);
    NormalKeepsNames(Segments(p));
    if c == [] || c[|c| - 1] == ".." then None else Some(c[|c| - 1])
  }

  lemma {:induction false} SegmentsHaveNoSeparator(p: string)
    ensures forall i :: 0 <= i < |Segments(p)| ==> '/' !in Segments(p)[i]
  {
    if p != [] {
      SegmentsHaveNoSeparator(p[1..]);
      var rest := Segments(p[1..]);
      if p[0] != '/' {
        assert Segments(p)[0] == [p[0]] + rest[0];
        assert forall i :: 1 <= i < |Segments(p)| ==> Segments(p)[i] == rest[i];
      }
    }
  }

  lemma {:induction false} NormalKeepsNames(segs: seq<string>)
    requires forall i :: 0 <= i < |segs| ==> '/' !in segs[i]
    ensures forall i :: 0 <= i < |Normal(segs)| ==>
      '/' !in Normal(segs)[i] && Normal(segs)[i] != "" && Normal(segs)[i] != "."
  {
    if segs != [] {
      NormalKeepsNames(segs[1..]);
    }
  }

  lemma {:induction false} NormalAppend(a: seq<string>, b: seq<string>)
    ensures Normal(a + b) == Normal(a) + Normal(b)
  {
    if a == [] {
      assert a + b == b;
    } else {
      assert (a + b)[1..] == a[1..] + b;
      NormalAppend(a[1..], b);
    }
  }

  /** One unfolding step of `Segments`, stated for a first character and the rest. */
  lemma SegmentsCons(c: char, t: string)
    ensures Segments([c] + t) ==
      if c == '/' then [""] + Segments(t) else [[c] + Segments(t)[0]] + Segments(t)[1..]
  {
    assert ([c] + t)[1..] == t;
  }

  lemma HeadJoin(c: char, r: seq<string>, s: seq<string>)
    requires |r| >= 1
    ensures [[c] + (r + s)[0]] + (r + s)[1..] == ([[c] + r[0]] + r[1..]) + s
    ensures [""] + (r + s) == ([""] + r) + s
  {
    assert (r + s)[0] == r[0];
    assert (r + s)[1..] == r[1..] + s;
  }

  lemma Regroup(a: string, b: string)
    requires a != []
    ensures a + "/" + b == [a[0]] + (a[1..] + "/" + b) && a == [a[0]] + a[1..]
  {
  }

  /** Splitting at a separator splits the segments. */
  lemma {:induction false} SegmentsAround(a: string, b: string)
    ensures Segments(a + "/" + b) == Segments(a) + Segments(b)
  {
    if a == [] {
      assert a + "/" + b == ['/'] + b;
      SegmentsCons('/', b);
    } else {
      SegmentsAround(a[1..], b);
      Regroup(a, b);
      SegmentsCons(a[0], a[1..] + "/" + b);
      SegmentsCons(a[0], a[1..]);
      HeadJoin(a[0], Segments(a[1..]), Segments(b));
    }
  }

  lemma {:induction false} SegmentsOfPlain(n: string)
    requires '/' !in n
    ensures Segments(n) == [n]
  {
    if n != [] {
      SegmentsOfPlain(n[1..]);
      assert [n[0]] + n[1..] == n;
    }
  }

  /** Joining a relative name appends its components to those of the directory. */
  lemma ComponentsOfJoin(dir: string, name: string)
    requires !IsAbsolute(name)
    ensures Components(Join(dir, name)) == Components(dir) + Components(name)
  {
    if dir == [] {
      assert Components(dir) == [];
    } else if dir[|dir| - 1] == '/' {
      var d := dir[..|dir| - 1];
      assert dir == d + "/" + "";
      assert dir + name == d + "/" + name;
      SegmentsAround(d, name);
      SegmentsAround(d, "");
      NormalAppend(Segments(d), Segments(name));
      NormalAppend(Segments(d), Segments(""));
    } else {
      SegmentsAround(dir, name);
      NormalAppend(Segments(dir), Segments(name));
    }
  }

  lemma ComponentsOfPlain(n: string)
    requires IsPlainName(n)
    ensures Components(n) == [n]
  {
    SegmentsOfPlain(n);
    assert Normal([n]) == [n] + Normal([]);
  }

  /** `<base>/versions`, the parent of every installed version. */
  function VersionsDir(base: string): string
  {
    Join(base, "versions")
  }

  /** `<base>/versions/<version>`, the directory of one version. */
  function VersionDir(base: string, version: string): string
  {
    Join(VersionsDir(base), version)
  }

  /** Where `versions/<version>` lands: one entry of `versions/`, the
      `versions/` directory itself (for the empty string, since joining ""
      only appends a separator), or somewhere this model does not follow. */
  datatype Place = Slot(name: string) | VersionsRoot | Beyond

  function Locate(version: string): (p: Place)
    ensures p.Slot? ==> p.name == version && IsPlainName(version)
    ensures p.VersionsRoot? <==> version == ""
  {
    if version == "" then VersionsRoot
    else if IsPlainName(version) then Slot(version)
    else Beyond
  }

  /** What `Locate` means for the path the code builds: a slot is one more
      component below `versions/`, while the empty string lands on
      `versions/` itself. So does ".", which this model files under
      `Beyond`. */
  lemma LocateLandsAt(base: string, version: string)
    ensures Locate(version).Slot? ==> Components(VersionDir(base, version)) == Components(VersionsDir(base)) + [version]
    ensures Locate(version).VersionsRoot? ==> Components(VersionDir(base, version)) == Components(VersionsDir(base))
    ensures Locate(".").Beyond? && Components(VersionDir(base, ".")) == Components(VersionsDir(base))
  {
    ComponentsOfJoin(base, "versions");
    ComponentsOfPlain("versions");
    ComponentsOfVersionDir(base, ".");
    assert Normal(["."]) == Normal([]);
    match Locate(version)
    case Slot(n) =>
      ComponentsOfVersionDir(base, version);
      ComponentsOfPlain(version);
    case VersionsRoot =>
      ComponentsOfVersionDir(base, version);
      ComponentsOfEmpty();
    case Beyond =>
  }

  lemma FileNameIsLast(p: string, front: seq<string>, n: string)
    requires Components(p) == front + [n] && n != ".."
    ensures FileName(p) == Some(n)
  {
    var c := Components(p);
    assert c != [] && c[|c| - 1] == n;
  }

  lemma ComponentsOfEmpty()
    ensures Components("") == []
  {
    assert Normal([""]) == [] + Normal([]);
  }

  /** The components of `<base>/versions/<version>`. */
  lemma ComponentsOfVersionDir(base: string, version: string)
    requires !IsAbsolute(version)
    ensures Components(VersionDir(base, version)) == Components(base) + ["versions"] + Components(version)
  {
    ComponentsOfJoin(base, "versions");
    ComponentsOfPlain("versions");
    ComponentsOfJoin(VersionsDir(base), version);
  }

  /** Reading back the last component of a version directory gives the
      version, or "versions" when the empty string was joined. */
  lemma FileNameOfVersionDir(base: string, version: string)
    requires !Locate(version).Beyond?
    ensures FileName(VersionDir(base, version)) == Some(if version == "" then "versions" else version)
  {
    ComponentsOfVersionDir(base, version);
    if version == "" {
      ComponentsOfEmpty();
      FileNameIsLast(VersionDir(base, version), Components(base), "versions");
    } else {
      ComponentsOfPlain(version);
      FileNameIsLast(VersionDir(base, version), Components(base) + ["versions"], version);
    }
  }
}
