/**
Workspace paths: normalisation of requested paths and the names of the scratch
files an edit transaction puts beside its targets (edit.rs).  A `Path` is the
sequence of components below the canonical root.
*/
module Paths {
  import opened Results

  type Path = seq<string>

  datatype PathError = AbsolutePath | PathTraversal | UnsupportedMetadataPath

  /** The parts of `s` between slashes. */
  function Split(s: string): (r: seq<string>)
    ensures |r| >= 1
  {
    if s == "" then [""]
    else
      var rest := Split(s[1..]);
      if s[0] == '/' then [""] + rest else [[s[0]] + rest[0]] + rest[1..]
  }

  /** Drops empty and "." parts; a ".." anywhere is refused. */
  function Normalise(parts: seq<string>): Option<Path> {
    if parts == [] then Some([])
    else if parts[0] == ".." then None
    else
      match Normalise(parts[1..])
      case None => None
      case Some(rest) => Some(if parts[0] == "" || parts[0] == "." then rest else [parts[0]] + rest)
  }

  /** `reject_metadata_path` */
  predicate IsMetadata(p: Path) {
    && p != []
    && (|| p[0] == ".git"
        || p[0] == "target"
        || [".yach", "sessions"] <= p
        || p == [".yach", "config.json"]
        || [".yach", "permissions"] <= p)
  }

  /** `validate_relative_path` */
  function Validate(path: string): Result<Path, PathError> {
    if path != "" && path[0] == '/' then Err(AbsolutePath)
    else
      match Normalise(Split(path))
      case None => Err(PathTraversal)
      case Some(p) =>
        if p == [] then Err(PathTraversal)
        else if IsMetadata(p) then Err(UnsupportedMetadataPath)
        else Ok(p)
  }

  /** `path_to_slash_string` */
  function SlashString(p: Path): string {
    if p == [] then "" else if |p| == 1 then p[0] else p[0] + "/" + SlashString(p[1..])
  }

  predicate IsComponent(c: string) {
    c != "" && c != "." && c != ".." && '/' !in c
  }

  ghost predicate IsNormal(p: Path) {
    forall c <- p :: IsComponent(c)
  }

  lemma {:induction false} SplitHasNoSlash(s: string)
    ensures forall part <- Split(s) :: '/' !in part
  {
    if s != "" {
      SplitHasNoSlash(s[1..]);
      var rest := Split(s[1..]);
      assert rest[0] in rest;
      assert forall part <- rest[1..] :: part in rest;
    }
  }

  lemma {:induction false} NormaliseGivesComponents(parts: seq<string>)
    requires forall part <- parts :: '/' !in part
    ensures var r := Normalise(parts); r.Some? ==> IsNormal(r.value)
  {
    if parts != [] {
      NormaliseGivesComponents(parts[1..]);
    }
  }

  lemma {:induction false} NormaliseKeepsComponents(p: Path)
    requires IsNormal(p)
    ensures Normalise(p) == Some(p)
  {
    if p != [] {
      assert IsComponent(p[0]);
      NormaliseKeepsComponents(p[1..]);
      assert p == [p[0]] + p[1..];
    }
  }

  lemma {:induction false} SplitOfComponent(c: string, tail: string)
    requires '/' !in c
    ensures Split(c + "/" + tail) == [c] + Split(tail)
    ensures Split(c) == [c]
  {
    if c == "" {
      assert c + "/" + tail == ['/'] + tail;
    } else {
      SplitOfComponent(c[1..], tail);
      assert (c + "/" + tail)[1..] == c[1..] + "/" + tail;
      assert c == [c[0]] + c[1..];
    }
  }

  lemma {:induction false} SplitOfJoined(parts: seq<string>)
    requires parts != [] && forall part <- parts :: '/' !in part
    ensures Split(SlashString(parts)) == parts
  {
    assert parts[0] in parts;
    if |parts| == 1 {
      SplitOfComponent(parts[0], "");
    } else {
      SplitOfJoined(parts[1..]);
      SplitOfComponent(parts[0], SlashString(parts[1..]));
    }
  }

  /** A validated path, printed and validated again, is itself. */
  lemma ValidateIsIdempotent(path: string)
    requires Validate(path).Ok?
    ensures var p := Validate(path).value; IsNormal(p) && p != [] && Validate(SlashString(p)) == Ok(p)
  {
    var p := Validate(path).value;
    SplitHasNoSlash(path);
    NormaliseGivesComponents(Split(path));
    assert IsComponent(p[0]);
    SplitOfJoined(p);
    NormaliseKeepsComponents(p);
    assert SlashString(p)[0] == p[0][0];
  }

  // ---- What validates, over the slices of the path string ----

  /** `parts` are the slices of `s` between its slashes. */
  ghost predicate Slices(s: string, parts: seq<string>) {
    parts != [] && (forall part <- parts :: '/' !in part) && SlashString(parts) == s
  }

  lemma {:induction false} SplitJoins(s: string)
    ensures SlashString(Split(s)) == s
  {
    if s != "" {
      SplitJoins(s[1..]);
      var rest := Split(s[1..]);
      assert s == [s[0]] + s[1..];
      assert ([""] + rest)[1..] == rest;
      assert ([[s[0]] + rest[0]] + rest[1..])[1..] == rest[1..];
    }
  }

  /** Every string has exactly one list of slices. */
  lemma SplitExactly(s: string, parts: seq<string>)
    ensures Split(s) == parts <==> Slices(s, parts)
  {
    SplitJoins(s);
    SplitHasNoSlash(s);
    if Slices(s, parts) {
      SplitOfJoined(parts);
    }
  }

  predicate IsPlain(part: string) {
    part != "" && part != "."
  }

  function PlainCount(parts: seq<string>): nat {
    if parts == [] then 0
    else
      var n := |parts| - 1;
      PlainCount(parts[..n]) + if IsPlain(parts[n]) then 1 else 0
  }

  /** `p` lists the plain parts in order: each stands after as many components as plain parts precede it. */
  ghost predicate Picks(parts: seq<string>, p: Path) {
    && |p| == PlainCount(parts)
    && forall i :: 0 <= i < |parts| && IsPlain(parts[i]) ==>
         PlainCount(parts[..i]) < |p| && p[PlainCount(parts[..i])] == parts[i]
  }

  lemma {:induction false} NormaliseAppend(parts: seq<string>, part: string)
    ensures Normalise(parts + [part]) ==
      if part == ".." || Normalise(parts).None? then None
      else if IsPlain(part) then Some(Normalise(parts).value + [part]) else Normalise(parts)
  {
    if parts != [] {
      NormaliseAppend(parts[1..], part);
      assert (parts + [part])[1..] == parts[1..] + [part] && (parts + [part])[0] == parts[0];
      var rest := Normalise(parts[1..]);
      assert rest.Some? ==> [parts[0]] + (rest.value + [part]) == ([parts[0]] + rest.value) + [part];
    } else {
      assert parts + [part] == [part] && [part][1..] == [] && [part] + [] == [] + [part];
      assert Normalise([part][1..]) == Some([]);
    }
  }

  lemma {:induction false} NormalisePicks(parts: seq<string>)
    ensures Normalise(parts).None? <==> ".." in parts
    ensures Normalise(parts).Some? ==> Picks(parts, Normalise(parts).value)
  {
    hide IsPlain;
    if parts != [] {
      var n := |parts| - 1;
      NormalisePicks(parts[..n]);
      NormaliseAppend(parts[..n], parts[n]);
      assert parts[..n] + [parts[n]] == parts;
      assert forall i :: 0 <= i < n ==> parts[..n][..i] == parts[..i];
      assert forall part :: part in parts <==> part == parts[n] || part in parts[..n];
    }
  }

  /** There is only one way to pick. */
  lemma {:induction false} PicksUnique(parts: seq<string>, p: Path, q: Path)
    requires Picks(parts, p) && Picks(parts, q)
    ensures p == q
  {
    hide IsPlain;
    if parts != [] {
      var n := |parts| - 1;
      var m := PlainCount(parts[..n]);
      PicksPrefix(parts, p);
      PicksPrefix(parts, q);
      PicksUnique(parts[..n], p[..m], q[..m]);
      assert p[..|p|] == p && q[..|q|] == q;
      assert IsPlain(parts[n]) ==> p == p[..m] + [parts[n]] && q == q[..m] + [parts[n]];
    }
  }

  lemma PicksPrefix(parts: seq<string>, p: Path)
    requires parts != [] && Picks(parts, p)
    ensures
      var n := |parts| - 1;
      PlainCount(parts[..n]) <= |p| && Picks(parts[..n], p[..PlainCount(parts[..n])])
  {
    hide IsPlain;
    var n := |parts| - 1;
    var init := parts[..n];
    forall i | 0 <= i < n && IsPlain(init[i])
      ensures PlainCount(init[..i]) < PlainCount(init) && p[PlainCount(init[..i])] == init[i]
    {
      assert init[..i] == parts[..i];
      PlainCountGrows(init, i);
    }
  }

  lemma {:induction false} PlainCountGrows(parts: seq<string>, i: nat)
    requires i < |parts| && IsPlain(parts[i])
    ensures PlainCount(parts[..i]) < PlainCount(parts)
    decreases |parts|
  {
    hide IsPlain;
    var n := |parts| - 1;
    if i < n {
      PlainCountGrows(parts[..n], i);
      assert parts[..n][..i] == parts[..i];
    }
  }

  lemma {:induction false} NothingPlain(parts: seq<string>)
    ensures PlainCount(parts) == 0 <==> forall part <- parts :: !IsPlain(part)
  {
    hide IsPlain;
    if parts != [] {
      var n := |parts| - 1;
      NothingPlain(parts[..n]);
      assert forall part :: part in parts <==> part == parts[n] || part in parts[..n];
    }
  }

  ghost predicate InMetadata(p: Path) {
    || (|p| >= 1 && (p[0] == ".git" || p[0] == "target"))
    || (|p| >= 2 && p[0] == ".yach" && (p[1] == "sessions" || p[1] == "permissions"))
    || (|p| == 2 && p[0] == ".yach" && p[1] == "config.json")
  }

  /**
  A path validates exactly when it does not start with a slash, none of its slices
  is "..", some slice is plain and the plain slices do not lead into metadata; the
  result is the plain slices in order.  Each refusal is told apart.
  */
  lemma ValidatesExactly(path: string, parts: seq<string>, p: Path)
    requires Slices(path, parts)
    ensures Validate(path) == Ok(p) <==>
      !("/" <= path) && ".." !in parts && p != [] && !InMetadata(p) && Picks(parts, p)
    ensures Validate(path) == Err(AbsolutePath) <==> "/" <= path
    ensures Validate(path) == Err(PathTraversal) <==>
      !("/" <= path) && (".." in parts || forall part <- parts :: !IsPlain(part))
  {
    SplitExactly(path, parts);
    assert "/" <= path <==> path != "" && path[0] == '/';
    NormalisePicks(parts);
    NothingPlain(parts);
    hide Split, SlashString, Normalise, IsPlain;
    if Normalise(parts).Some? {
      var q := Normalise(parts).value;
      MetadataByName(q);
      hide IsMetadata, InMetadata;
      if Picks(parts, p) {
        PicksUnique(parts, p, q);
      }
    }
  }

  lemma MetadataByName(p: Path)
    ensures IsMetadata(p) <==> InMetadata(p)
  {
  }

  // ---- Scratch files ----

  /** `.{name}.{transaction}.{process}{suffix}`; `tag` is `{transaction}.{process}`. */
  function ScratchName(name: string, tag: string, suffix: string): string {
    "." + name + "." + tag + suffix
  }

  /** `temp_path_for` */
  function TempPath(target: Path, tag: string): (r: Path)
    requires target != []
  {
    target[..|target| - 1] + [ScratchName(target[|target| - 1], tag, ".tmp")]
  }

  /** `backup_path_for` */
  function BackupPath(target: Path, tag: string): (r: Path)
    requires target != []
  {
    target[..|target| - 1] + [ScratchName(target[|target| - 1], tag, ".bak")]
  }

  lemma ScratchNameInjective(a: string, b: string, tag: string, suffix: string)
    requires ScratchName(a, tag, suffix) == ScratchName(b, tag, suffix)
    ensures a == b
  {
    var x, y := ScratchName(a, tag, suffix), ScratchName(b, tag, suffix);
    assert |x| == |y| && |a| == |b|;
    assert a == x[1..1 + |a|] == y[1..1 + |b|] == b;
  }

  lemma PathByParts(p: Path)
    requires p != []
    ensures p == p[..|p| - 1] + [p[|p| - 1]]
  {
  }

  lemma SameButLast(a: Path, b: Path, x: string, y: string)
    requires a != [] && b != [] && a[..|a| - 1] + [x] == b[..|b| - 1] + [y]
    ensures |a| == |b| && a[..|a| - 1] == b[..|b| - 1] && x == y
  {
    var s, t := a[..|a| - 1] + [x], b[..|b| - 1] + [y];
    assert |s| == |a| && |t| == |b|;
    assert s[..|a| - 1] == a[..|a| - 1] && t[..|b| - 1] == b[..|b| - 1];
    assert s[|a| - 1] == x && t[|b| - 1] == y;
  }

  /** Different targets have different scratch files, and no temp file is a backup file. */
  lemma ScratchPathsDistinct(a: Path, b: Path, tag: string)
    requires a != [] && b != []
    ensures TempPath(a, tag) == TempPath(b, tag) ==> a == b
    ensures BackupPath(a, tag) == BackupPath(b, tag) ==> a == b
    ensures TempPath(a, tag) != BackupPath(b, tag)
    ensures TempPath(a, tag) != a
  {
    var la, lb := a[|a| - 1], b[|b| - 1];
    if TempPath(a, tag) == TempPath(b, tag) {
      SameButLast(a, b, ScratchName(la, tag, ".tmp"), ScratchName(lb, tag, ".tmp"));
      ScratchNameInjective(la, lb, tag, ".tmp");
      PathByParts(a); PathByParts(b);
    }
    if BackupPath(a, tag) == BackupPath(b, tag) {
      SameButLast(a, b, ScratchName(la, tag, ".bak"), ScratchName(lb, tag, ".bak"));
      ScratchNameInjective(la, lb, tag, ".bak");
      PathByParts(a); PathByParts(b);
    }
    var x, y := ScratchName(la, tag, ".tmp"), ScratchName(lb, tag, ".bak");
    assert x[|x| - 1] == 'p' && y[|y| - 1] == 'k';
    assert TempPath(a, tag)[|a| - 1] == x && BackupPath(b, tag)[|b| - 1] == y;
    assert |x| > |la|;
  }

  lemma TagInjective(name: string, tag: string, other: string, suffix: string)
    ensures ScratchName(name, tag, suffix) == ScratchName(name, other, suffix) ==> tag == other
  {
    var x, y, n := ScratchName(name, tag, suffix), ScratchName(name, other, suffix), |name| + 2;
    if x == y {
      assert |x| == n + |tag| + |suffix| && |y| == n + |other| + |suffix|;
      assert tag == x[n..n + |tag|];
      assert other == y[n..n + |other|];
    }
  }

  /** Scratch names also tell transactions apart. */
  lemma ScratchPathsByTag(target: Path, tag: string, other: string)
    requires target != [] && tag != other
    ensures TempPath(target, tag) != TempPath(target, other) && BackupPath(target, tag) != BackupPath(target, other)
  {
    var name := target[|target| - 1];
    TagInjective(name, tag, other, ".tmp");
    TagInjective(name, tag, other, ".bak");
    assert TempPath(target, tag)[|target| - 1] == ScratchName(name, tag, ".tmp");
    assert BackupPath(target, tag)[|target| - 1] == ScratchName(name, tag, ".bak");
  }
}
