/** `vfsl/pathTracer.c`: paths as lists of components. */
module PathTracers {
  import opened Bytes

  const MAX_PATH_SIZE: nat := 255
  const NUL: char := '\0'
  const DIRECTORY: nat := 1
  const FILE: nat := 2

  datatype Option<T> = None | Some(value: T)

  // ----- what a path means

  datatype Component = Component(name: string, isFile: bool)

  /** The components of `s`, where `name` is the beginning of the first one. A directory ends in a
      slash; no component is empty. */
  function Split(s: string, name: string): Option<seq<Component>> {
    if s == "" then Some(if name == "" then [] else [Component(name, true)])
    else if s[0] != '/' then Split(s[1..], name + [s[0]])
    else if name == "" then None
    else Before([Component(name, false)], Split(s[1..], ""))
  }

  function Before(cs: seq<Component>, rest: Option<seq<Component>>): Option<seq<Component>> {
    if rest.None? then None else Some(cs + rest.value)
  }

  function Shown(c: Component): string {
    c.name + if c.isFile then "" else "/"
  }

  function Joined(cs: seq<Component>): string {
    if cs == [] then "" else Joined(cs[..|cs| - 1]) + Shown(cs[|cs| - 1])
  }

  /** Names are not empty and without slashes; only the last component may be a file. */
  predicate WellFormed(cs: seq<Component>) {
    forall i :: 0 <= i < |cs| ==> cs[i].name != "" && '/' !in cs[i].name && (cs[i].isFile ==> i == |cs| - 1)
  }

  lemma {:induction false} JoinedFront(c: Component, cs: seq<Component>)
    ensures Joined([c] + cs) == Shown(c) + Joined(cs)
  {
    if cs == [] {
      assert [c] + cs == [c] && [c][..0] == [];
    } else {
      var n := |cs| - 1;
      JoinedFront(c, cs[..n]);
      assert ([c] + cs)[..n + 1] == [c] + cs[..n] && ([c] + cs)[n + 1] == cs[n];
      assert Shown(c) + (Joined(cs[..n]) + Shown(cs[n])) == (Shown(c) + Joined(cs[..n])) + Shown(cs[n]);
    }
  }

  lemma {:induction false} JoinedPrefix(cs: seq<Component>, k: nat)
    requires k < |cs|
    ensures Joined(cs[..k + 1]) == Joined(cs[..k]) + Shown(cs[k])
    ensures |Joined(cs[..k + 1])| <= |Joined(cs)|
    decreases |cs| - k
  {
    assert cs[..k + 1][..k] == cs[..k];
    if k + 1 < |cs| { JoinedPrefix(cs, k + 1); } else { assert cs[..k + 1] == cs; }
  }

  /** Printing what was parsed gives the path back. */
  lemma {:induction false} PrintParsed(s: string, name: string)
    requires Split(s, name).Some?
    ensures Joined(Split(s, name).value) == name + s
  {
    if s == "" {
      if name != "" { assert [Component(name, true)][..0] == []; }
    } else if s[0] != '/' {
      PrintParsed(s[1..], name + [s[0]]);
      assert name + [s[0]] + s[1..] == name + s;
    } else {
      PrintParsed(s[1..], "");
      JoinedFront(Component(name, false), Split(s[1..], "").value);
      assert name + "/" + s[1..] == name + s;
    }
  }

  /** Parsing what was printed gives the components back. */
  lemma {:induction false} ParsePrinted(cs: seq<Component>)
    requires WellFormed(cs)
    ensures Split(Joined(cs), "") == Some(cs)
  {
    if cs != [] {
      var c, rest := cs[0], cs[1..];
      forall i | 0 <= i < |rest| ensures rest[i] == cs[i + 1] { }
      assert cs == [c] + rest;
      JoinedFront(c, rest);
      ParsePrinted(rest);
      SplitFirst(c, Joined(rest));
      assert c.isFile ==> cs == [c];
    }
  }

  lemma SplitFirst(c: Component, rest: string)
    requires c.name != "" && '/' !in c.name && (c.isFile ==> rest == "")
    ensures Split(Shown(c) + rest, "") == if c.isFile then Some([c]) else Before([c], Split(rest, ""))
  {
    var tail := (if c.isFile then "" else "/") + rest;
    assert Shown(c) + rest == c.name + tail;
    SplitName(c.name, "", tail);
    assert "" + c.name == c.name;
    if !c.isFile { assert tail[1..] == rest; }
  }

  lemma {:induction false} SplitName(name: string, before: string, rest: string)
    requires '/' !in name
    ensures Split(name + rest, before) == Split(rest, before + name)
  {
    if name == "" {
      assert name + rest == rest && before + name == before;
    } else {
      SplitName(name[1..], before + [name[0]], rest);
      assert (name + rest)[1..] == name[1..] + rest && (name + rest)[0] == name[0];
      assert before + [name[0]] + name[1..] == before + name;
    }
  }

  /** A slash follows a character that is none. */
  predicate SlashOk(s: string, name: string, i: nat) {
    i < |s| && (s[i] == '/' ==> if i == 0 then name != "" else s[i - 1] != '/')
  }

  /** A path is accepted exactly when no slash comes first or follows another one. */
  lemma {:induction false} AcceptsExactly(s: string, name: string)
    ensures Split(s, name).Some? <==> forall i: nat {:trigger SlashOk(s, name, i)} :: i < |s| ==> SlashOk(s, name, i)
  {
    if s != "" {
      var tail, next := s[1..], if s[0] == '/' then "" else name + [s[0]];
      AcceptsExactly(tail, next);
      assert Split(s, name).Some? <==> SlashOk(s, name, 0) && Split(tail, next).Some?;
      forall i: nat | i < |tail| ensures SlashOk(tail, next, i) <==> SlashOk(s, name, i + 1) {
      }
      if forall i: nat {:trigger SlashOk(tail, next, i)} :: i < |tail| ==> SlashOk(tail, next, i) {
        forall i: nat | 0 < i < |s| ensures SlashOk(s, name, i) {
          assert SlashOk(tail, next, i - 1);
        }
      }
    }
  }

  /** All components but the last are directories, and the last is a file exactly when the path does
      not end in a slash. */
  lemma {:induction false} ParsedShape(s: string, name: string)
    requires Split(s, name).Some? && '/' !in name
    ensures var cs := Split(s, name).value;
            WellFormed(cs) && (cs == [] <==> name + s == "")
            && (cs != [] ==> (cs[|cs| - 1].isFile <==> (name + s)[|name + s| - 1] != '/'))
  {
    if s == "" {
      assert name + s == name;
    } else if s[0] != '/' {
      ParsedShape(s[1..], name + [s[0]]);
      assert name + [s[0]] + s[1..] == name + s;
    } else {
      ParsedShape(s[1..], "");
      var rest := Split(s[1..], "").value;
      assert "" + s[1..] == s[1..];
      assert Split(s, name).value == [Component(name, false)] + rest;
    }
  }

  // ----- the list

  class Part {
    var pathPart: string
    var kind: nat
    var prev: Part?
    var next: Part?

    /** A zeroed part from `kzalloc`. */
    constructor ()
      ensures pathPart == "" && kind == 0 && prev == null && next == null
    {
      pathPart, kind, prev, next := "", 0, null, null;
    }
  }

  ghost predicate LinkAt(parts: seq<Part>, i: int)
    requires 0 <= i < |parts|
    reads parts
  {
    && parts[i].prev == (if i > 0 then parts[i - 1] else null)
    && parts[i].next == (if i + 1 < |parts| then parts[i + 1] else null)
  }

  /** A doubly linked list of distinct parts. */
  ghost predicate Linked(parts: seq<Part>)
    reads parts
  {
    && (forall i {:trigger LinkAt(parts, i)} :: 0 <= i < |parts| ==> LinkAt(parts, i))
    && (forall i, j :: 0 <= i < j < |parts| ==> parts[i] != parts[j])
  }

  ghost predicate ShowsAt(p: Part, c: Component)
    reads p
  {
    p.pathPart == c.name && p.kind == if c.isFile then FILE else DIRECTORY
  }

  /** The parts `parts[..|cs|]` hold the components `cs`. */
  ghost predicate Shows(parts: seq<Part>, cs: seq<Component>)
    reads parts
  {
    |cs| <= |parts| && forall i {:trigger cs[i]} :: 0 <= i < |cs| ==> ShowsAt(parts[i], cs[i])
  }

  class PathTracer {
    const volume: char
    var root: Part?
    ghost var parts: seq<Part>
    ghost var components: seq<Component>

    ghost predicate Valid()
      reads this, parts
    {
      && Linked(parts) && Shows(parts, components) && |parts| == |components| && WellFormed(components)
      && (parts != [] ==> root == parts[0])
    }

    constructor (volume: char)
      ensures this.volume == volume && parts == [] && components == []
    {
      this.volume, root, parts, components := volume, null, [], [];
    }

    /** `pathTracerStartTrace`. */
    method PathTracerStartTrace() returns (part: Part?)
      ensures part == root
    {
      return root;
    }

    /** `pathTracerGetFileName`: the name of the last component, if that is a file. */
    method PathTracerGetFileName() returns (name: Option<string>)
      requires Valid() && parts != []
      ensures var last := components[|components| - 1]; name == if last.isFile then Some(last.name) else None
    {
      var part := PathTracerStartTrace();
      ghost var k := 0;
      while part != null
        invariant 0 <= k <= |parts| && part == if k < |parts| then parts[k] else null
        invariant forall i :: 0 <= i < k ==> !components[i].isFile
        decreases |parts| - k
      {
        assert ShowsAt(parts[k], components[k]) && LinkAt(parts, k);
        if part.kind == FILE { return Some(part.pathPart); }
        part := part.next;
        k := k + 1;
      }
      return None;
    }

    /** `pathTracerGetPathString`: a zero-terminated string in a buffer of `MAX_PATH_SIZE`. */
    method PathTracerGetPathString() returns (ret: array<char>)
      requires Valid() && parts != [] && |Path(volume, components)| < MAX_PATH_SIZE
      ensures fresh(ret) && Holds(ret, Path(volume, components))
    {
      ret := new char[MAX_PATH_SIZE](_ => NUL);
      ret[0], ret[1], ret[2] := volume, ':', '/';
      var part := PathTracerStartTrace();
      var counter := 3;
      ghost var k, s := 0, Path(volume, []);
      assert components[..0] == [] && s == [volume, ':', '/'];
      while part != null
        invariant 0 <= k <= |parts| && part == if k < |parts| then parts[k] else null
        invariant Holds(ret, s) && s == Path(volume, components[..k])
        invariant k < |parts| ==> counter == |s|
        decreases |parts| - k
      {
        assert ShowsAt(parts[k], components[k]) && LinkAt(parts, k);
        PathPrefix(volume, components, k);
        counter := PrintPart(ret, counter, part, components[k], s);
        s := s + Shown(components[k]);
        part := PathTracerGetNext(part);
        counter := counter + 1;
        k := k + 1;
      }
      assert components[..k] == components;
    }
  }

  /** `pathTracerGetNext`. */
  method PathTracerGetNext(tracer: Part?) returns (next: Part?)
    ensures next == if tracer == null then null else tracer.next
  {
    if tracer == null || tracer.next == null { return null; }
    return tracer.next;
  }

  /** One turn of its loop. */
  method PrintPart(ret: array<char>, at: nat, part: Part, ghost c: Component, ghost s: string) returns (counter: nat)
    requires ShowsAt(part, c) && Holds(ret, s) && at == |s| && |s + Shown(c)| < ret.Length
    modifies ret
    ensures Holds(ret, s + Shown(c)) && counter == |s| + |c.name|
  {
    Strncpy(ret, at, part.pathPart);
    counter := at + |part.pathPart|;
    if part.kind == DIRECTORY {
      ret[counter] := '/';
    }
    assert forall j :: 0 <= j < at ==> ret[j] == s[j];
  }

  function Path(volume: char, cs: seq<Component>): string {
    [volume, ':', '/'] + Joined(cs)
  }

  lemma PathPrefix(volume: char, cs: seq<Component>, k: nat)
    requires k < |cs|
    ensures Path(volume, cs[..k + 1]) == Path(volume, cs[..k]) + Shown(cs[k])
    ensures |Path(volume, cs[..k + 1])| <= |Path(volume, cs)|
  {
    JoinedPrefix(cs, k);
  }

  /** The buffer starts with `s` and is zero behind it. */
  predicate Holds(a: array<char>, s: string)
    reads a
  {
    |s| <= a.Length && a[..|s|] == s && forall i :: |s| <= i < a.Length ==> a[i] == NUL
  }

  /** `strncpy(dest + at, src, strlen(src))`. */
  method Strncpy(dest: array<char>, at: nat, src: string)
    requires at + |src| <= dest.Length
    modifies dest
    ensures forall j :: 0 <= j < dest.Length ==> dest[j] == if at <= j < at + |src| then src[j - at] else old(dest[j])
  {
    for i := 0 to |src|
      invariant forall j :: 0 <= j < dest.Length ==> dest[j] == if at <= j < at + i then src[j - at] else old(dest[j])
    {
      dest[at + i] := src[i];
    }
  }

  // ----- parsing

  /** A path of a volume: its label, a colon and a slash. */
  predicate Prefixed(path: string) {
    |path| > 0 && 'C' <= path[0] <= 'Z' && |path| >= 3 && path[1] == ':' && path[2] == '/'
  }

  function Slashes(s: string): nat {
    if s == "" then 0 else Slashes(s[1..]) + if s[0] == '/' then 1 else 0
  }

  /** The list so far: full parts and a last one that is still empty. */
  ghost predicate Growing(parts: seq<Part>, cs: seq<Component>)
    reads parts
  {
    && Linked(parts) && Shows(parts, cs) && |parts| == |cs| + 1
    && forall i :: 0 <= i < |cs| ==> !cs[i].isFile
  }

  /** A full part is marked as a directory, and an empty one follows it. */
  method Grow(part: Part, name: string, ghost parts: seq<Part>, ghost cs: seq<Component>) returns (tempPath: Part)
    requires Growing(parts, cs) && part == parts[|cs|]
    modifies part
    ensures fresh(tempPath) && Growing(parts + [tempPath], cs + [Component(name, false)])
  {
    part.pathPart := name;
    tempPath := new Part();
    part.kind := DIRECTORY;
    part.next := tempPath;
    tempPath.prev := part;
    ghost var grown, shown := parts + [tempPath], cs + [Component(name, false)];
    forall i | 0 <= i < |grown| ensures LinkAt(grown, i) {
      if i < |parts| { assert old(LinkAt(parts, i)); }
    }
    forall i | 0 <= i < |shown| ensures ShowsAt(grown[i], shown[i]) {
      if i < |cs| { assert old(ShowsAt(parts[i], cs[i])); }
    }
  }

  /** The end of the path: the empty last part becomes the file or is dropped. */
  method Finish(part: Part, name: string, ghost parts: seq<Part>, ghost cs: seq<Component>)
    requires Growing(parts, cs) && part == parts[|cs|]
    modifies parts
    ensures var all := cs + if name == "" then [] else [Component(name, true)];
            Linked(parts[..|all|]) && Shows(parts[..|all|], all)
  {
    assert LinkAt(parts, |cs|);
    if name == "" {
      ghost var rest := parts[..|cs|];
      if part.prev != null {
        assert LinkAt(parts, |cs| - 1);
        part.prev.next := null;
      }
      forall i | 0 <= i < |rest| ensures LinkAt(rest, i) { assert old(LinkAt(parts, i)); }
      forall i | 0 <= i < |cs| ensures ShowsAt(rest[i], cs[i]) { assert old(ShowsAt(parts[i], cs[i])); }
      assert cs + [] == cs;
    } else {
      part.pathPart := name;
      part.kind := FILE;
      ghost var all := cs + [Component(name, true)];
      assert parts[..|all|] == parts;
      forall i | 0 <= i < |parts| ensures LinkAt(parts, i) { assert old(LinkAt(parts, i)); }
      forall i | 0 <= i < |all| ensures ShowsAt(parts[i], all[i]) {
        if i < |cs| { assert old(ShowsAt(parts[i], cs[i])); }
      }
    }
  }

  /** The character loop of `createPathTracer`, which fills `root` and grows the list behind it. */
  method ParseParts(path: string, root: Part, memory: nat) returns (ok: int, ghost parts: seq<Part>, ghost cs: seq<Component>)
    requires 3 <= |path| < MAX_PATH_SIZE && Linked([root])
    modifies root
    ensures ok == SUCCESS ==> Split(path[3..], "") == Some(cs)
    ensures ok == SUCCESS ==> |parts| == |cs| && Linked(parts) && Shows(parts, cs) && (parts != [] ==> parts[0] == root)
    ensures ok == SUCCESS || (ok == -EFORMAT && Split(path[3..], "").None?) || (ok == -ENMEM && memory < Slashes(path[3..]))
  {
    var part, pathPart, left := root, "", memory;
    parts, cs := [root], [];
    BeforeNone(Split(path[3..], ""));
    for i := 3 to |path|
      invariant Growing(parts, cs) && part == parts[|cs|] && parts[0] == root
      invariant forall k :: 0 <= k < |parts| ==> parts[k] == root || fresh(parts[k])
      invariant Split(path[3..], "") == Before(cs, Split(path[i..], pathPart))
      invariant |pathPart| <= i - 3 && 0 <= left && memory + Slashes(path[i..]) == left + Slashes(path[3..])
    {
      assert path[i..][0] == path[i] && path[i..][1..] == path[i + 1..];
      if |pathPart| == MAX_PATH_SIZE - 1 || path[i] == '/' {
        if |pathPart| == 0 { return -EFORMAT, parts, cs; }
        if left == 0 { return -ENMEM, parts, cs; }
        left := left - 1;
        BeforeTwice(cs, Component(pathPart, false), Split(path[i + 1..], ""));
        ghost var grown := cs + [Component(pathPart, false)];
        part := Grow(part, pathPart, parts, cs);
        parts, cs := parts + [part], grown;
        pathPart := "";
      } else {
        pathPart := pathPart + [path[i]];
      }
    }
    Finish(part, pathPart, parts, cs);
    cs := cs + if pathPart == "" then [] else [Component(pathPart, true)];
    parts := parts[..|cs|];
    return SUCCESS, parts, cs;
  }

  lemma BeforeNone(rest: Option<seq<Component>>)
    ensures Before([], rest) == rest
  {
    if rest.Some? { assert [] + rest.value == rest.value; }
  }

  lemma BeforeTwice(cs: seq<Component>, c: Component, rest: Option<seq<Component>>)
    ensures Before(cs, Before([c], rest)) == Before(cs + [c], rest)
  {
    if rest.Some? { assert cs + ([c] + rest.value) == cs + [c] + rest.value; }
  }

  function CharAt(s: string, i: nat): char {
    if i < |s| then s[i] else NUL
  }

  /** `checkVolumeLabel`. */
  predicate CheckVolumeLabel(c: char) {
    'C' <= c <= 'Z'
  }

  /** The status of parsing a path when memory does not run out. */
  function Verdict(path: string, volumes: set<char>): int {
    if |path| >= MAX_PATH_SIZE && CheckVolumeLabel(path[0]) then -ELONG
    else if !Prefixed(path) then -EFORMAT
    else if path[0] !in volumes then -ENFOUND
    else if Split(path[3..], "").None? then -EFORMAT
    else SUCCESS
  }

  /** `createPathTracer`, for the labels of the known volumes and an allocator that has `memory` blocks
      left. For a path without components the list is empty, and `root` means nothing. */
  method CreatePathTracer(path: string, volumes: set<char>, memory: nat) returns (t: PathTracer?, errCode: int)
    requires NUL !in path
    ensures t != null <==> errCode == SUCCESS
    ensures t != null ==> fresh(t) && t.Valid() && Prefixed(path) && t.volume == path[0] && Split(path[3..], "") == Some(t.components)
    ensures errCode == Verdict(path, volumes) || (errCode == -ENMEM && Prefixed(path) && memory < 2 + Slashes(path[3..]))
  {
    if !CheckVolumeLabel(CharAt(path, 0)) { return null, -EFORMAT; }
    if |path| >= MAX_PATH_SIZE { return null, -ELONG; }
    if CharAt(path, 1) != ':' || CharAt(path, 2) != '/' { return null, -EFORMAT; }
    if path[0] !in volumes { return null, -ENFOUND; }
    if memory < 2 { return null, -ENMEM; }
    var tracer := new PathTracer(path[0]);
    var part := new Part();
    tracer.root := part;

    assert LinkAt([part], 0);
    var ok; ghost var parts, cs;
    ok, parts, cs := ParseParts(path, part, memory - 2);
    if ok != SUCCESS { return null, ok; }
    ParsedShape(path[3..], "");
    tracer.parts, tracer.components := parts, cs;
    return tracer, SUCCESS;
  }

  /** A path that was accepted and has a component is printed as it was given. */
  lemma RoundTrip(path: string, cs: seq<Component>)
    requires Prefixed(path) && Split(path[3..], "") == Some(cs)
    ensures Path(path[0], cs) == path
  {
    PrintParsed(path[3..], "");
    assert [path[0], ':', '/'] + path[3..] == path;
  }

  /** Components that fit in a path survive printing and parsing. */
  lemma RoundTripBack(volume: char, cs: seq<Component>, volumes: set<char>)
    requires CheckVolumeLabel(volume) && volume in volumes && WellFormed(cs) && |Path(volume, cs)| < MAX_PATH_SIZE
    ensures Verdict(Path(volume, cs), volumes) == SUCCESS && Split(Path(volume, cs)[3..], "") == Some(cs)
  {
    ParsePrinted(cs);
    assert Path(volume, cs)[3..] == Joined(cs);
  }
}
