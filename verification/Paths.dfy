/** Relative paths, in the form that path objects print: no empty or "." components. */
module Paths {
  /** A ".." component begins at this index. */
  predicate DotDotAt(path: string, i: nat) {
    && i + 2 <= |path| && path[i] == '.' && path[i + 1] == '.'
    && (i == 0 || path[i - 1] == '/') && (i + 2 == |path| || path[i + 2] == '/')
  }

  /** Neither absolute nor with a ".." component. The empty path stands for the directory itself. */
  predicate SafePath(path: string) {
    (path != "" ==> path[0] != '/') && forall i :: 0 <= i < |path| ==> !DotDotAt(path, i)
  }

  /** `prefix / name` */
  function Join(directory: string, file: string): string {
    if directory == "" then file else if file == "" then directory else directory + "/" + file
  }

  /** The last component of a path. */
  function Name(path: string): string {
    if '/' in path then Name(path[1..]) else path
  }

  lemma {:induction false} NameOfJoin(directory: string, file: string)
    requires '/' !in file
    ensures Name(directory + "/" + file) == file
  {
    var path := directory + "/" + file;
    assert path[|directory|] == '/';
    if directory == "" {
      assert path[1..] == file;
    } else {
      assert path[1..] == directory[1..] + "/" + file;
      NameOfJoin(directory[1..], file);
    }
  }

  // ----- Following a path ----------------------------------------------------------------------

  predicate AreComponents(parts: seq<string>) {
    parts != [] && forall k :: 0 <= k < |parts| ==> '/' !in parts[k]
  }

  /** The path of these components. */
  function Joined(parts: seq<string>): string
    requires parts != []
  {
    if |parts| == 1 then parts[0] else parts[0] + "/" + Joined(parts[1..])
  }

  /** How far below its start a walk along the components ends. */
  function Depth(parts: seq<string>): int {
    if parts == [] then 0
    else Depth(parts[..|parts| - 1]) + match parts[|parts| - 1] case ".." => -1 case "." => 0 case "" => 0 case _ => 1
  }

  /** The path starts in its directory, and no part of it leads above. */
  ghost predicate StaysInside(path: string) {
    forall parts :: AreComponents(parts) && Joined(parts) == path ==> WalksInside(parts)
  }

  ghost predicate WalksInside(parts: seq<string>) {
    (|parts| > 1 ==> parts[0] != "") && forall n :: 0 <= n <= |parts| ==> Depth(parts[..n]) >= 0
  }

  lemma {:induction false} ComponentsExist(path: string) returns (parts: seq<string>)
    ensures AreComponents(parts) && Joined(parts) == path
  {
    if path == "" {
      parts := [""];
    } else {
      var rest := ComponentsExist(path[1..]);
      if path[0] == '/' {
        parts := [""] + rest;
        assert parts[1..] == rest;
      } else {
        parts := [[path[0]] + rest[0]] + rest[1..];
        assert parts[1..] == rest[1..];
      }
    }
  }

  lemma DotDotInRest(part: string, rest: string, i: nat)
    requires '/' !in part
    ensures DotDotAt(part + "/" + rest, i) <==>
      if i <= |part| then i == 0 && part == ".." else DotDotAt(rest, i - |part| - 1)
  {
    var path := part + "/" + rest;
    assert path[|part|] == '/' && path[|part| + 1..] == rest;
    assert forall k :: 0 <= k < |part| ==> path[k] == part[k];
    assert forall k :: 0 <= k < |rest| ==> path[|part| + 1 + k] == rest[k];
  }

  lemma SafeJoinedIff(parts: seq<string>)
    requires AreComponents(parts)
    ensures SafePath(Joined(parts)) <==> ".." !in parts && (|parts| > 1 ==> parts[0] != "")
    decreases |parts|
  {
    HasDotDotIff(parts);
    assert |parts| > 1 && parts[0] != "" ==> Joined(parts)[0] == parts[0][0];
  }

  ghost predicate HasDotDot(path: string) {
    exists i: nat :: DotDotAt(path, i)
  }

  lemma HasDotDotInRest(part: string, rest: string)
    requires '/' !in part
    ensures HasDotDot(part + "/" + rest) <==> part == ".." || HasDotDot(rest)
  {
    var path := part + "/" + rest;
    if i: nat :| DotDotAt(path, i) {
      DotDotInRest(part, rest, i);
    }
    if i: nat :| DotDotAt(rest, i) {
      DotDotInRest(part, rest, i + |part| + 1);
      assert DotDotAt(path, i + |part| + 1);
    }
    DotDotInRest(part, rest, 0);
  }

  lemma {:induction false} HasDotDotIff(parts: seq<string>)
    requires AreComponents(parts)
    ensures HasDotDot(Joined(parts)) <==> ".." in parts
    decreases |parts|
  {
    if |parts| == 1 {
      assert ".." in parts ==> DotDotAt(parts[0], 0);
      if i: nat :| DotDotAt(parts[0], i) {
        assert i == 0 && parts[0] == "..";
      }
    } else {
      HasDotDotIff(parts[1..]);
      HasDotDotInRest(parts[0], Joined(parts[1..]));
      assert parts == [parts[0]] + parts[1..];
    }
  }

  /** In components, the path is relative and none of them is "..". */
  ghost predicate Confined(path: string) {
    forall parts :: AreComponents(parts) && Joined(parts) == path ==>
      ".." !in parts && (|parts| > 1 ==> parts[0] != "")
  }

  /** A path is safe exactly when it is relative and no component is "..". */
  lemma SafePathIff(path: string)
    ensures SafePath(path) <==> Confined(path)
  {
    var parts := ComponentsExist(path);
    forall parts | AreComponents(parts) && Joined(parts) == path {
      SafeJoinedIff(parts);
    }
  }

  lemma {:induction false} DepthGrows(parts: seq<string>)
    requires ".." !in parts
    ensures Depth(parts) >= 0
  {
    if parts != [] {
      DepthGrows(parts[..|parts| - 1]);
    }
  }

  /** A safe path stays inside the directory it starts in. */
  lemma SafePathStaysInside(path: string)
    requires SafePath(path)
    ensures StaysInside(path)
  {
    forall parts | AreComponents(parts) && Joined(parts) == path ensures WalksInside(parts) {
      SafeJoinedIff(parts);
      forall n | 0 <= n <= |parts| ensures Depth(parts[..n]) >= 0 {
        DepthGrows(parts[..n]);
      }
    }
  }

  lemma {:induction false} JoinedMore(parts: seq<string>, part: string)
    requires parts != []
    ensures Joined(parts + [part]) == Joined(parts) + "/" + part
  {
    if |parts| > 1 {
      JoinedMore(parts[1..], part);
      assert (parts + [part])[1..] == parts[1..] + [part];
    }
  }

  lemma JoinedLast(parts: seq<string>, front: seq<string>, last: string)
    requires front != [] && parts == front + [last]
    ensures Joined(parts) == Joined(front) + "/" + last
  {
    JoinedMore(front, last);
  }

  /** The name of a path is its last component. */
  lemma NameIsLast(parts: seq<string>)
    requires AreComponents(parts)
    ensures Name(Joined(parts)) == parts[|parts| - 1]
  {
    if |parts| > 1 {
      var (front, last) := (parts[..|parts| - 1], parts[|parts| - 1]);
      JoinedLast(parts, front, last);
      NameOfJoin(Joined(front), last);
    }
  }

  /** The name of one safe path under another is safe. */
  lemma JoinIsSafe(directory: string, path: string)
    requires SafePath(directory) && SafePath(path)
    ensures SafePath(Join(directory, Name(path)))
  {
    var parts := ComponentsExist(path);
    var above := ComponentsExist(directory);
    SafeJoinedIff(parts);
    SafeJoinedIff(above);
    NameIsLast(parts);
    var name := parts[|parts| - 1];
    SafeJoinedIff([name]);
    SafeJoinedIff(above + [name]);
    JoinedMore(above, name);
    assert (above + [name])[0] == above[0];
  }
}
