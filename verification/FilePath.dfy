/** The path parser and joiner of src/filepath.c. A C string is the sequence of its characters up to
    the NUL, so it holds no NUL itself. */
module FilePath {
  import opened Machine

  const ROOT: string := "/"

  ghost predicate CString(s: string) {
    '\0' !in s
  }

  // ---------- Escapes and separators ----------

  /** Whether the character at i is escaped: an odd number of backslashes comes right before it. */
  predicate Escaped(path: string, i: nat)
    requires i <= |path|
  {
    i > 0 && path[i - 1] == '\\' && !Escaped(path, i - 1)
  }

  predicate Separator(path: string, i: nat)
    requires i < |path|
  {
    path[i] == '/' && !Escaped(path, i)
  }

  /** name without the backslashes that escape something. */
  function Deescaped(name: string, escape: bool): string {
    if name == "" then ""
    else if name[0] == '\\' && !escape then Deescaped(name[1..], true)
    else [name[0]] + Deescaped(name[1..], false)
  }

  /** A name without backslashes is kept as it is. */
  lemma {:induction false} DeescapedPlain(name: string)
    requires '\\' !in name
    ensures Deescaped(name, false) == name
  {
    if name != "" {
      assert name[1..] <= name[1..] && forall c :: c in name[1..] ==> c in name;
      DeescapedPlain(name[1..]);
    }
  }

  method DeescapeName(name: string) returns (tmp: string)
    ensures tmp == Deescaped(name, false)
  {
    tmp := "";
    var escape := false;
    var idx := 0;
    while idx < |name|
      invariant 0 <= idx <= |name| && escape == Escaped(name, idx)
      invariant tmp + Deescaped(name[idx..], escape) == Deescaped(name, false)
    {
      var c := name[idx];
      assert name[idx..][0] == c && name[idx..][1..] == name[idx + 1..];
      idx := idx + 1;
      if c == '\\' && !escape {
        escape := true;
        continue;
      } else {
        escape := false;
      }
      tmp := tmp + [c];
    }
  }

  // ---------- Splitting ----------

  /** The non-empty pieces between separators, from start on, given that none lies in start..i. */
  function Cut(path: string, start: nat, i: nat): seq<string>
    requires start <= i <= |path|
    decreases |path| - i
  {
    if i == |path| then Piece(path, start, i)
    else if Separator(path, i) then Piece(path, start, i) + Cut(path, i + 1, i + 1)
    else Cut(path, start, i + 1)
  }

  function Piece(path: string, start: nat, end: nat): seq<string>
    requires start <= end <= |path|
  {
    if start < end then [path[start..end]] else []
  }

  function AllDeescaped(names: seq<string>): (r: seq<string>)
    ensures |r| == |names|
    ensures forall i :: 0 <= i < |r| ==> r[i] == Deescaped(names[i], false)
  {
    if names == [] then [] else [Deescaped(names[0], false)] + AllDeescaped(names[1..])
  }

  /** What a path stands for: "/" exactly if it is absolute, then its non-empty pieces in order. */
  function Names(path: string): seq<string> {
    (if path != "" && path[0] == '/' then [ROOT] else []) + AllDeescaped(Cut(path, 0, 0))
  }

  /** No escaped slash is directly followed by a separator. */
  ghost predicate Clear(path: string) {
    forall i :: 0 < i < |path| && Separator(path, i) && path[i - 1] == '/' ==> Separator(path, i - 1)
  }

  /** The pieces the parser takes, from where it stands at i with the current piece begun at start. A
      separator after any slash, escaped or not, moves the start on instead of ending the piece. */
  function Scan(path: string, start: nat, i: nat): seq<string>
    requires start <= i <= |path|
    decreases |path| - i
  {
    if i == |path| then Piece(path, start, i)
    else if !Separator(path, i) then Scan(path, start, i + 1)
    else if i == 0 then [ROOT] + Scan(path, 1, 1)
    else if path[i - 1] == '/' then Scan(path, start + 1, i + 1)
    else [path[start..i]] + Scan(path, i + 1, i + 1)
  }

  function Parsed(path: string): seq<string> {
    AllDeescaped(Scan(path, 0, 0))
  }

  method SplitPath(path: string) returns (list: seq<string>)
    requires CString(path)
    ensures list == Parsed(path)
    ensures list == Names(path) <==> Clear(path)
  {
    list := [];
    var start, escape, pc := 0, false, '\0';
    var i := 0;
    while i < |path|
      invariant 0 <= start <= i <= |path| && escape == Escaped(path, i)
      invariant pc == (if i == 0 then '\0' else path[i - 1])
      invariant list + Scan(path, start, i) == Scan(path, 0, 0)
    {
      var c := path[i];
      if c == '/' {
        if escape {
          escape := false;
        } else if pc == '/' {
          start := start + 1;
        } else if pc == '\0' {
          list := list + [ROOT];
          start := i + 1;
        } else {
          list := list + [path[start..i]];
          start := i + 1;
        }
      } else if c == '\\' {
        escape := !escape;
      } else {
        escape := false;
      }
      pc := c;
      i := i + 1;
    }
    if start != i {
      list := list + [path[start..i]];
    }
    list := DeescapeAll(list);
    ParsedIsNamesIff(path);
  }

  method DeescapeAll(list: seq<string>) returns (names: seq<string>)
    ensures names == AllDeescaped(list)
  {
    names := [];
    for i := 0 to |list|
      invariant names == AllDeescaped(list)[..i]
    {
      var name := DeescapeName(list[i]);
      names := names + [name];
    }
  }

  lemma {:induction false} AllDeescapedJoin(a: seq<string>, b: seq<string>)
    ensures AllDeescaped(a + b) == AllDeescaped(a) + AllDeescaped(b)
  {
    if a != [] {
      assert (a + b)[1..] == a[1..] + b;
      AllDeescapedJoin(a[1..], b);
    } else {
      assert a + b == b;
    }
  }

  lemma RootIsKept(path: string)
    ensures AllDeescaped((if path != "" && path[0] == '/' then [ROOT] else []) + Cut(path, 0, 0)) == Names(path)
  {
    AllDeescapedJoin(if path != "" && path[0] == '/' then [ROOT] else [], Cut(path, 0, 0));
    DeescapedPlain(ROOT);
    assert AllDeescaped([]) == [] && forall k :: 0 <= k < 1 ==> AllDeescaped([ROOT])[k] == ROOT;
    assert AllDeescaped([ROOT]) == [ROOT];
  }

  // ---------- When the parser is right ----------

  /** The slashes among the characters of a name; escaping and deescaping do not touch them. */
  function Slashes(name: string): nat {
    if name == "" then 0 else (if name[0] == '/' then 1 else 0) + Slashes(name[1..])
  }

  lemma {:induction false} SlashesJoin(a: string, b: string)
    ensures Slashes(a + b) == Slashes(a) + Slashes(b)
  {
    if a == "" {
      assert a + b == b;
    } else {
      assert (a + b)[1..] == a[1..] + b;
      SlashesJoin(a[1..], b);
    }
  }

  lemma {:induction false} DeescapedSlashes(name: string, escape: bool)
    ensures Slashes(Deescaped(name, escape)) == Slashes(name)
  {
    if name != "" {
      var c := name[0];
      if c == '\\' && !escape {
        DeescapedSlashes(name[1..], true);
      } else {
        DeescapedSlashes(name[1..], false);
        assert ([c] + Deescaped(name[1..], false))[1..] == Deescaped(name[1..], false);
      }
    }
  }

  function AllSlashes(names: seq<string>): nat {
    if names == [] then 0 else Slashes(names[0]) + AllSlashes(names[1..])
  }

  lemma {:induction false} AllSlashesJoin(a: seq<string>, b: seq<string>)
    ensures AllSlashes(a + b) == AllSlashes(a) + AllSlashes(b)
  {
    if a == [] {
      assert a + b == b;
    } else {
      assert (a + b)[1..] == a[1..] + b;
      AllSlashesJoin(a[1..], b);
    }
  }

  lemma {:induction false} AllDeescapedSlashes(names: seq<string>)
    ensures AllSlashes(AllDeescaped(names)) == AllSlashes(names)
  {
    if names != [] {
      DeescapedSlashes(names[0], false);
      AllDeescapedSlashes(names[1..]);
    }
  }

  /** The slashes from i on that separate nothing. */
  function EscapedSlashes(path: string, i: nat): nat
    requires i <= |path|
    decreases |path| - i
  {
    if i == |path| then 0
    else (if path[i] == '/' && Escaped(path, i) then 1 else 0) + EscapedSlashes(path, i + 1)
  }

  lemma SlashesOneMore(path: string, start: nat, i: nat)
    requires start <= i < |path|
    ensures Slashes(path[start..i + 1]) == Slashes(path[start..i]) + if path[i] == '/' then 1 else 0
  {
    assert path[start..i + 1] == path[start..i] + [path[i]];
    SlashesJoin(path[start..i], [path[i]]);
    assert [path[i]][1..] == "";
  }

  lemma SlashesOneLess(path: string, start: nat, i: nat)
    requires start < i <= |path|
    ensures Slashes(path[start + 1..i]) == Slashes(path[start..i]) - if path[start] == '/' then 1 else 0
  {
    assert path[start..i][1..] == path[start + 1..i];
  }

  lemma PieceSlashes(path: string, start: nat, i: nat)
    requires start <= i <= |path|
    ensures AllSlashes(Piece(path, start, i)) == Slashes(path[start..i])
  {
    if start < i {
      assert [path[start..i]][1..] == [];
    } else {
      assert path[start..i] == "";
    }
  }

  /** The pieces of a path hold its escaped slashes and no others. */
  lemma {:induction false} CutSlashes(path: string, start: nat, i: nat)
    requires start <= i <= |path|
    ensures AllSlashes(Cut(path, start, i)) == Slashes(path[start..i]) + EscapedSlashes(path, i)
    decreases |path| - i
  {
    PieceSlashes(path, start, i);
    if i < |path| {
      SlashesOneMore(path, start, i);
      if Separator(path, i) {
        CutSlashes(path, i + 1, i + 1);
        assert path[i + 1..i + 1] == "";
        AllSlashesJoin(Piece(path, start, i), Cut(path, i + 1, i + 1));
      } else {
        CutSlashes(path, start, i + 1);
      }
    }
  }

  /** The pieces of the parser hold as many at least: a separator that moves the start on is kept,
      for another character at the front. */
  lemma {:induction false} ScanSlashes(path: string, start: nat, i: nat)
    requires start <= i <= |path| && (i == 0 ==> path == "" || path[0] != '/')
    ensures AllSlashes(Scan(path, start, i)) >= Slashes(path[start..i]) + EscapedSlashes(path, i)
    decreases |path| - i
  {
    if i == |path| {
      PieceSlashes(path, start, i);
    } else if !Separator(path, i) {
      SlashesOneMore(path, start, i);
      ScanSlashes(path, start, i + 1);
    } else if path[i - 1] == '/' {
      SlashesOneMore(path, start, i);
      SlashesOneLess(path, start, i + 1);
      ScanSlashes(path, start + 1, i + 1);
    } else {
      assert path[i + 1..i + 1] == "";
      ScanSlashes(path, i + 1, i + 1);
      assert ([path[start..i]] + Scan(path, i + 1, i + 1))[1..] == Scan(path, i + 1, i + 1);
    }
  }

  /** The parser at i, having met no separator after an escaped slash, has begun its piece where a
      separator ended. */
  ghost predicate Begun(path: string, start: nat, i: nat) {
    start <= i <= |path| && i > 0 && (start == i <==> Separator(path, i - 1)) && (start < i ==> path[start] != '/')
  }

  /** A separator after an escaped slash. */
  ghost predicate Unclear(path: string, u: nat) {
    0 < u < |path| && Separator(path, u) && path[u - 1] == '/' && !Separator(path, u - 1)
  }

  /** With such a separator ahead they hold more. */
  lemma {:induction false} UnclearScan(path: string, start: nat, i: nat, u: nat)
    requires Begun(path, start, i) && i <= u && Unclear(path, u)
    ensures AllSlashes(Scan(path, start, i)) > Slashes(path[start..i]) + EscapedSlashes(path, i)
    decreases |path| - i
  {
    SlashesOneMore(path, start, i);
    if !Separator(path, i) {
      UnclearScan(path, start, i + 1, u);
    } else if path[i - 1] == '/' {
      SlashesOneLess(path, start, i + 1);
      if start < i {
        ScanSlashes(path, start + 1, i + 1);
      } else {
        UnclearScan(path, start + 1, i + 1, u);
      }
    } else {
      assert path[i + 1..i + 1] == "";
      UnclearScan(path, i + 1, i + 1, u);
      assert ([path[start..i]] + Scan(path, i + 1, i + 1))[1..] == Scan(path, i + 1, i + 1);
    }
  }

  /** Without one they are the pieces of the path. */
  lemma {:induction false} ClearScan(path: string, start: nat, i: nat)
    requires Begun(path, start, i) && Clear(path)
    ensures Scan(path, start, i) == Cut(path, start, i)
    decreases |path| - i
  {
    if i < |path| {
      if !Separator(path, i) {
        ClearScan(path, start, i + 1);
      } else if path[i - 1] == '/' {
        ClearScan(path, start + 1, i + 1);
      } else {
        ClearScan(path, i + 1, i + 1);
      }
    }
  }

  /** The parser returns what the path stands for exactly if no separator follows an escaped slash. */
  lemma ParsedIsNamesIff(path: string)
    ensures Parsed(path) == Names(path) <==> Clear(path)
  {
    RootIsKept(path);
    if path != "" {
      var root := if path[0] == '/' then [ROOT] else [];
      var start := if path[0] == '/' then 1 else 0;
      var rest, cut := Scan(path, start, 1), Cut(path, start, 1);
      assert Begun(path, start, 1);
      assert Scan(path, 0, 0) == root + rest;
      assert Cut(path, 0, 0) == cut;
      if Clear(path) {
        ClearScan(path, start, 1);
      } else {
        var u :| 0 < u < |path| && Separator(path, u) && path[u - 1] == '/' && !Separator(path, u - 1);
        UnclearScan(path, start, 1, u);
        CutSlashes(path, start, 1);
        AllSlashesJoin(root, rest);
        AllSlashesJoin(root, cut);
        AllDeescapedSlashes(root + rest);
        AllDeescapedSlashes(root + cut);
      }
    }
  }

  lemma {:induction false} ScanNotEmpty(path: string, start: nat, i: nat)
    requires start < i <= |path|
    ensures Scan(path, start, i) != []
    decreases |path| - i
  {
    if i < |path| {
      if !Separator(path, i) { ScanNotEmpty(path, start, i + 1); }
      else if path[i - 1] == '/' { ScanNotEmpty(path, start + 1, i + 1); }
    }
  }

  /** The first piece of a relative path is the whole path, ends before a separator that follows no
      slash, or holds two slashes at least. */
  lemma {:induction false} FirstPiece(path: string, start: nat, i: nat) returns (e: nat)
    requires start < i <= |path| && path[0] != '/' && (start > 0 ==> Slashes(path[start..i]) >= 2)
    ensures Scan(path, start, i) != [] && e <= |path|
    ensures Slashes(Scan(path, start, i)[0]) >= 2
      || (start == 0 && Scan(path, start, i)[0] == path[..e] &&
          (e < |path| ==> e > 0 && Separator(path, e) && path[e - 1] != '/'))
    decreases |path| - i
  {
    e := i;
    if i < |path| {
      SlashesOneMore(path, start, i);
      if !Separator(path, i) {
        e := FirstPiece(path, start, i + 1);
      } else if path[i - 1] == '/' {
        SlashesOneLess(path, start, i + 1);
        LastTwo(path, start, i);
        e := FirstPiece(path, start + 1, i + 1);
      }
    }
  }

  lemma LastTwo(path: string, start: nat, i: nat)
    requires start < i < |path| && path[i - 1] == '/' && path[i] == '/' && !(start + 1 == i && start == 0)
    requires start > 0 ==> Slashes(path[start..i]) >= 2
    ensures Slashes(path[start + 1..i + 1]) >= 2
  {
    SlashesOneMore(path, start, i);
    SlashesOneLess(path, start, i + 1);
    if start == 0 {
      SlashesOneMore(path, start + 1, i - 1);
      SlashesOneMore(path, start + 1, i);
    }
  }

  /** Only these names deescape to "/". */
  lemma DeescapedIsRoot(name: string)
    requires name != "" && name[0] != '/' && Deescaped(name, false) == ROOT
    ensures name == "\\/" || name == "\\/\\"
  {
    var plain := [name[0]] + Deescaped(name[1..], false);
    assert plain[0] == name[0];
    var rest := name[1..];
    assert Deescaped(rest, true) == ROOT;
    assert rest != "" && Deescaped(rest, true)[0] == rest[0];
    assert Deescaped(rest, true)[1..] == Deescaped(rest[1..], false) == "";
    if rest[1..] != "" {
      assert rest[1..][0] == '\\' && Deescaped(rest[1..][1..], true) == "";
      assert rest[1..][1..] == "";
      assert name == "\\/\\";
    } else {
      assert name == "\\/";
    }
  }

  /** A path the parser gives the first name "/": an absolute one, or an escaped slash alone. */
  predicate RootFirst(path: string) {
    (path != "" && path[0] == '/') || path == "\\/" || path == "\\/\\"
  }

  lemma EscapedSlashAlone(path: string)
    requires path == "\\/" || path == "\\/\\"
    ensures Parsed(path) == [ROOT] && Slashes(ROOT) == 1
  {
    assert path[0] == '\\' && path[1] == '/' && !Escaped(path, 0) && Escaped(path, 1);
    assert !Separator(path, 0) && !Separator(path, 1) && (|path| > 2 ==> path[2] == '\\' && !Separator(path, 2));
    assert Scan(path, 0, 2) == [path] by { assert path[0..|path|] == path; }
    assert Scan(path, 0, 0) == Scan(path, 0, 1) == [path];
    assert path[1..][0] == '/' && path[1..][1..] == path[2..];
    assert Deescaped(path[2..], false) == "" by { assert |path| > 2 ==> path[2..][1..] == ""; }
    assert Deescaped(path, false) == ROOT;
  }

  lemma RootFirstIff(path: string)
    ensures Parsed(path) != [] && Parsed(path)[0] == ROOT <==> RootFirst(path)
  {
    if path != "" && path[0] == '/' {
      DeescapedPlain(ROOT);
      assert Scan(path, 0, 0)[0] == ROOT;
    } else if path == "\\/" || path == "\\/\\" {
      EscapedSlashAlone(path);
    } else if path != "" && Parsed(path) != [] && Parsed(path)[0] == ROOT {
      var e := FirstPiece(path, 0, 1);
      var first := Scan(path, 0, 0)[0];
      assert Scan(path, 0, 0) == Scan(path, 0, 1);
      DeescapedSlashes(first, false);
      assert Slashes(first) == Slashes(ROOT) == 1 by { assert ROOT[1..] == ""; }
      RootIsWhole(path, first, e);
    }
  }

  lemma RootIsWhole(path: string, first: string, e: nat)
    requires path != "" && path[0] != '/' && first != "" && Deescaped(first, false) == ROOT
    requires e <= |path| && first == path[..e] && (e < |path| ==> e > 0 && Separator(path, e) && path[e - 1] != '/')
    ensures path == "\\/" || path == "\\/\\"
  {
    DeescapedIsRoot(first);
    if e == 2 {
      assert path[1] == first[1] == '/';
    } else {
      assert path[1] == first[1] == '/' && path[2] == first[2] == '\\';
      assert !Escaped(path, 2) && Escaped(path, 3);
    }
    assert path[..|path|] == path;
  }

  // ---------- Plain paths ----------

  /** A name that a plain path can hold between its slashes. */
  predicate PlainName(name: string) {
    name != "" && '/' !in name && '\\' !in name
  }

  lemma PlainIsClear(path: string)
    requires '\\' !in path
    ensures Clear(path) && forall i :: 0 <= i < |path| ==> (Separator(path, i) <==> path[i] == '/')
  {
    forall i | 0 <= i < |path| ensures !Escaped(path, i) { assert i > 0 ==> path[i - 1] in path; }
  }

  lemma {:induction false} CutIsPlain(path: string, start: nat, i: nat)
    requires '\\' !in path && start <= i <= |path| && forall k :: start <= k < i ==> path[k] != '/'
    ensures forall k :: 0 <= k < |Cut(path, start, i)| ==> PlainName(Cut(path, start, i)[k])
    decreases |path| - i
  {
    PlainIsClear(path);
    if start < i { assert PlainName(path[start..i]); }
    if i < |path| {
      if path[i] == '/' { CutIsPlain(path, i + 1, i + 1); } else { CutIsPlain(path, start, i + 1); }
    }
  }

  lemma {:induction false} AllPlain(names: seq<string>)
    requires forall k :: 0 <= k < |names| ==> PlainName(names[k])
    ensures AllDeescaped(names) == names
  {
    forall k | 0 <= k < |names| ensures AllDeescaped(names)[k] == names[k] { DeescapedPlain(names[k]); }
  }

  /** Of a path without backslashes, the names are non-empty and without slashes, but for the root. */
  lemma PlainNames(path: string)
    requires '\\' !in path
    ensures Names(path) == (if path != "" && path[0] == '/' then [ROOT] else []) + Cut(path, 0, 0)
    ensures forall k :: 0 <= k < |Cut(path, 0, 0)| ==> PlainName(Cut(path, 0, 0)[k])
    ensures path != "" ==> Names(path) != []
  {
    CutIsPlain(path, 0, 0);
    AllPlain(Cut(path, 0, 0));
    if path != "" && path[0] != '/' {
      PlainIsClear(path);
      CutNotEmpty(path, 0, 1);
    }
  }

  lemma {:induction false} CutNotEmpty(path: string, start: nat, i: nat)
    requires start < i <= |path|
    ensures Cut(path, start, i) != []
    decreases |path| - i
  {
    if i < |path| && !Separator(path, i) { CutNotEmpty(path, start, i + 1); }
  }

  // ---------- Joining ----------

  /** Each name after a slash. */
  function Slashed(names: seq<string>): string {
    if names == [] then "" else ROOT + names[0] + Slashed(names[1..])
  }

  function Flat(lists: seq<seq<string>>): seq<string> {
    if lists == [] then [] else lists[0] + Flat(lists[1..])
  }

  /** The characters the joiner writes: no slash before the very first name. */
  function Joined(lists: seq<seq<string>>): string {
    if lists != [] && lists[0] != [] then lists[0][0] + Slashed(lists[0][1..] + Flat(lists[1..]))
        else Slashed(Flat(lists))
  }

  /** What the first pass adds up. */
  function Counted(lists: seq<seq<string>>): nat {
    if lists != [] && lists[0] != [] && lists[0][0] == ROOT then |Slashed(lists[0][1..] + Flat(lists[1..]))|
        else |Slashed(Flat(lists))|
  }

  /** The characters written always fit the buffer of Counted + 1; a NUL is left to end them except
      when the first name is "/". */
  lemma JoinedFits(lists: seq<seq<string>>)
    ensures |Joined(lists)| <= Counted(lists) + 1
    ensures |Joined(lists)| <= Counted(lists) <==> !(lists != [] && lists[0] != [] && lists[0][0] == ROOT)
  {
    if lists != [] && lists[0] != [] {
      assert Flat(lists) == [lists[0][0]] + (lists[0][1..] + Flat(lists[1..]));
    }
  }

  lemma {:induction false} SlashedJoin(a: seq<string>, b: seq<string>)
    ensures Slashed(a + b) == Slashed(a) + Slashed(b)
  {
    if a == [] {
      assert a + b == b;
    } else {
      assert (a + b)[1..] == a[1..] + b;
      SlashedJoin(a[1..], b);
    }
  }

  /** Skipping to the first separator, or to the end. */
  lemma {:induction false} CutSkips(path: string, start: nat, i: nat, e: nat)
    requires start <= i <= e <= |path| && forall k :: i <= k < e ==> !Separator(path, k)
    ensures Cut(path, start, i) == Cut(path, start, e)
    decreases e - i
  {
    if i < e { CutSkips(path, start, i + 1, e); }
  }

  lemma SlashedFirst(names: seq<string>)
    requires names != []
    ensures Slashed(names) != "" && Slashed(names)[0] == '/' && Slashed(names)[1..] == names[0] + Slashed(names[1..])
  {
    assert Slashed(names) == ROOT + (names[0] + Slashed(names[1..]));
  }

  /** Cutting what the joiner wrote after position at gives back its names. */
  lemma {:induction false} CutSlashed(path: string, at: nat, names: seq<string>)
    requires '\\' !in path && at <= |path| && path[at..] == Slashed(names)
    requires forall k :: 0 <= k < |names| ==> PlainName(names[k])
    ensures Cut(path, at, at) == names
    decreases |names|, 0
  {
    PlainIsClear(path);
    if names != [] {
      SlashedFirst(names);
      assert path[at] == path[at..][0] && path[at + 1..] == path[at..][1..];
      CutName(path, at + 1, names[0], names[1..]);
    }
  }

  lemma {:induction false} CutName(path: string, at: nat, n: string, rest: seq<string>)
    requires '\\' !in path && at <= |path| && path[at..] == n + Slashed(rest) && PlainName(n)
    requires forall k :: 0 <= k < |rest| ==> PlainName(rest[k])
    ensures Cut(path, at, at) == [n] + rest
    decreases |rest|, 1
  {
    PlainIsClear(path);
    var e := at + |n|;
    assert path[at..e] == n by { assert path[at..e] == path[at..][..|n|]; }
    forall k | at <= k < e ensures path[k] != '/' { assert path[k] == n[k - at]; }
    CutSkips(path, at, at, e);
    assert path[e..] == Slashed(rest) by { assert path[e..] == path[at..][|n|..]; }
    if rest != [] {
      assert path[e] == path[e..][0] == '/';
      CutSlashed(path, e, rest);
    }
  }

  lemma {:induction false} SlashedPlain(names: seq<string>)
    requires forall k :: 0 <= k < |names| ==> PlainName(names[k])
    ensures '\\' !in Slashed(names)
  {
    if names != [] { SlashedPlain(names[1..]); }
  }

  // ---------- Any names ----------

  /** A name as a path can hold it: a backslash before each slash and each backslash. */
  function Escape(name: string): string {
    if name == "" then ""
    else (if name[0] in {'/', '\\'} then ['\\', name[0]] else [name[0]]) + Escape(name[1..])
  }

  function EscapeAll(names: seq<string>): (r: seq<string>)
    ensures |r| == |names| && forall i :: 0 <= i < |r| ==> r[i] == Escape(names[i])
  {
    if names == [] then [] else [Escape(names[0])] + EscapeAll(names[1..])
  }

  /** Deescaping undoes it. */
  lemma {:induction false} DeescapeUndoes(name: string)
    ensures Deescaped(Escape(name), false) == name && (name != "" ==> Escape(name) != "")
  {
    if name != "" {
      DeescapeUndoes(name[1..]);
      var e := Escape(name);
      if name[0] in {'/', '\\'} {
        assert e[0] == '\\' && e[1..][0] == name[0] && e[1..][1..] == Escape(name[1..]);
        assert Deescaped(e, false) == Deescaped(e[1..], true) == [name[0]] + Deescaped(Escape(name[1..]), false);
      } else {
        assert e[0] == name[0] && e[1..] == Escape(name[1..]);
      }
    }
  }

  lemma {:induction false} EscapedEnds(name: string)
    requires name != ""
    ensures Escape(name) != "" && Escape(name)[|Escape(name)| - 1] == name[|name| - 1]
  {
    if |name| > 1 {
      EscapedEnds(name[1..]);
    } else {
      assert Escape(name[1..]) == "";
    }
  }

  lemma EscapeFirst(path: string, at: nat, name: string)
    requires name != "" && at <= |path| && Escape(name) <= path[at..] && !Escaped(path, at)
    ensures var k := if name[0] in {'/', '\\'} then 2 else 1;
      && at + k <= |path| && |Escape(name)| == k + |Escape(name[1..])| && Escape(name[1..]) <= path[at + k..]
      && !Escaped(path, at + k) && (forall j :: at <= j < at + k ==> !Separator(path, j))
  {
    var e, tail := Escape(name), path[at..];
    assert tail[0] == e[0] == path[at];
    if name[0] in {'/', '\\'} {
      assert tail[1] == e[1] == path[at + 1] == name[0];
      assert Escaped(path, at + 1);
      assert e[2..] == Escape(name[1..]) && tail[2..] == path[at + 2..];
      assert e[2..] <= tail[2..];
    } else {
      assert e[1..] == Escape(name[1..]) && tail[1..] == path[at + 1..];
      assert e[1..] <= tail[1..];
    }
  }

  /** An escaped name separates nothing and leaves nothing escaped. */
  lemma {:induction false} EscapeSkips(path: string, at: nat, name: string)
    requires at <= |path| && Escape(name) <= path[at..] && !Escaped(path, at)
    ensures at + |Escape(name)| <= |path| && !Escaped(path, at + |Escape(name)|)
    ensures forall j :: at <= j < at + |Escape(name)| ==> !Separator(path, j)
    decreases |name|
  {
    if name != "" {
      EscapeFirst(path, at, name);
      EscapeSkips(path, at + (if name[0] in {'/', '\\'} then 2 else 1), name[1..]);
    }
  }

  ghost predicate NotEmpty(names: seq<string>) {
    forall k :: 0 <= k < |names| ==> names[k] != ""
  }

  /** Of names written one after the other, each escaped and after a slash: the end e of the first. */
  lemma FirstEscaped(path: string, at: nat, names: seq<string>) returns (e: nat)
    requires names != [] && NotEmpty(names) && at <= |path| && !Escaped(path, at)
    requires path[at..] == Slashed(EscapeAll(names))
    ensures at + 1 < e <= |path| && Separator(path, at) && path[at + 1..e] == Escape(names[0])
    ensures !Escaped(path, e) && path[e..] == Slashed(EscapeAll(names[1..])) && NotEmpty(names[1..])
    ensures (forall j :: at < j < e ==> !Separator(path, j)) && path[e - 1] == names[0][|names[0]| - 1]
    ensures |names| > 1 ==> e < |path| && Separator(path, e)
  {
    var n, all := Escape(names[0]), EscapeAll(names);
    SlashedFirst(all);
    assert all[1..] == EscapeAll(names[1..]);
    e := at + 1 + |n|;
    assert path[at] == path[at..][0] && path[at + 1..] == path[at..][1..] == n + Slashed(all[1..]);
    EscapeSkips(path, at + 1, names[0]);
    EscapedEnds(names[0]);
    assert path[at + 1..e] == n && path[e..] == Slashed(all[1..]);
    assert path[e - 1] == path[at + 1..e][|n| - 1];
    if |names| > 1 {
      SlashedFirst(all[1..]);
      assert path[e] == path[e..][0];
    }
  }

  lemma {:induction false} CutEscaped(path: string, at: nat, names: seq<string>)
    requires NotEmpty(names) && at <= |path| && !Escaped(path, at) && path[at..] == Slashed(EscapeAll(names))
    ensures Cut(path, at, at) == EscapeAll(names)
    decreases |names|
  {
    if names != [] {
      var e := FirstEscaped(path, at, names);
      CutSkips(path, at + 1, at + 1, e);
      CutEscaped(path, e, names[1..]);
      if |names| > 1 {
        assert Cut(path, e, e) == Cut(path, e + 1, e + 1);
      }
    }
  }

  /** Any names that are not empty have a path, with each of them escaped: it stands for them. */
  lemma NamesOfEscaped(names: seq<string>)
    requires names != [] && NotEmpty(names)
    ensures Names(Slashed(EscapeAll(names))) == [ROOT] + names
  {
    var path, all := Slashed(EscapeAll(names)), EscapeAll(names);
    SlashedFirst(all);
    assert path[0..] == path;
    CutEscaped(path, 0, names);
    forall i | 0 <= i < |names| ensures AllDeescaped(all)[i] == names[i] { DeescapeUndoes(names[i]); }
  }

  /** No slash of the path from at on comes between an escaped slash and a separator. */
  ghost predicate ClearFrom(path: string, at: nat) {
    forall i :: at < i < |path| && Separator(path, i) && path[i - 1] == '/' ==> Separator(path, i - 1)
  }

  /** No name but the last ends in a slash. */
  ghost predicate SlashesLast(names: seq<string>) {
    forall i :: 0 <= i < |names| - 1 && names[i] != "" ==> names[i][|names[i]| - 1] != '/'
  }

  lemma SlashesLastRest(names: seq<string>)
    requires |names| > 1 && NotEmpty(names)
    ensures SlashesLast(names) <==> names[0][|names[0]| - 1] != '/' && SlashesLast(names[1..])
  {
    var rest := names[1..];
    if SlashesLast(names) {
      forall i | 0 <= i < |rest| - 1 && rest[i] != "" ensures rest[i][|rest[i]| - 1] != '/' {
        assert names[i + 1] == rest[i];
      }
    }
    if names[0][|names[0]| - 1] != '/' && SlashesLast(rest) {
      forall i | 0 <= i < |names| - 1 && names[i] != "" ensures names[i][|names[i]| - 1] != '/' {
        assert i > 0 ==> names[i] == rest[i - 1];
      }
    }
  }

  lemma {:induction false} ClearEscaped(path: string, at: nat, names: seq<string>)
    requires names != [] && NotEmpty(names) && at <= |path| && !Escaped(path, at)
    requires path[at..] == Slashed(EscapeAll(names))
    ensures ClearFrom(path, at) <==> SlashesLast(names)
    decreases |names|
  {
    var e := FirstEscaped(path, at, names);
    if |names| > 1 {
      ClearEscaped(path, e, names[1..]);
      SlashesLastRest(names);
      assert ClearFrom(path, at) <==> path[e - 1] != '/' && ClearFrom(path, e) by {
        assert !Separator(path, e - 1);
      }
    } else {
      assert path[e..] == "";
    }
  }

  /** The parser gives them back exactly if none but the last ends in a slash. */
  lemma ParsedOfEscapedIff(names: seq<string>)
    requires names != [] && NotEmpty(names)
    ensures Parsed(Slashed(EscapeAll(names))) == [ROOT] + names <==> SlashesLast(names)
  {
    var path := Slashed(EscapeAll(names));
    NamesOfEscaped(names);
    ParsedIsNamesIff(path);
    assert path[0..] == path;
    ClearEscaped(path, 0, names);
    assert Clear(path) <==> ClearFrom(path, 0);
  }

  /** The names of one path as the joiner uses them: only the first path keeps its root. */
  function Kept(paths: seq<string>, i: nat): seq<string>
    requires i < |paths|
  {
    var names := Parsed(paths[i]);
    if i > 0 && names != [] && names[0] == ROOT then names[1..] else names
  }

  function AllKept(paths: seq<string>): (r: seq<seq<string>>)
    ensures |r| == |paths|
  {
    seq(|paths|, k requires 0 <= k < |paths| => Kept(paths, k))
  }

  /** The buffer has no room for a NUL exactly if the first path is absolute or an escaped slash
      alone. */
  lemma NulFitsIff(paths: seq<string>)
    ensures |Joined(AllKept(paths))| <= Counted(AllKept(paths)) <==> !(paths != [] && RootFirst(paths[0]))
  {
    JoinedFits(AllKept(paths));
    if paths != [] {
      RootFirstIff(paths[0]);
      assert AllKept(paths)[0] == Parsed(paths[0]);
    }
  }

  lemma KeptIsPlain(paths: seq<string>, i: nat)
    requires i < |paths| && '\\' !in paths[i]
    ensures var names := Kept(paths, i); forall k :: (if i == 0 then 1 else 0) <= k < |names| ==> PlainName(names[k])
    ensures i == 0 && Kept(paths, i) != [] ==> Kept(paths, i)[0] == ROOT || PlainName(Kept(paths, i)[0])
  {
    PlainNames(paths[i]);
    PlainIsClear(paths[i]);
    ParsedIsNamesIff(paths[i]);
  }

  ghost predicate Plain(names: seq<string>) {
    forall k :: 0 <= k < |names| ==> PlainName(names[k])
  }

  lemma PlainJoin(a: seq<string>, b: seq<string>)
    requires Plain(a) && Plain(b)
    ensures Plain(a + b)
  {
    forall k | 0 <= k < |a + b| ensures PlainName((a + b)[k]) {
      if k < |a| {
        assert (a + b)[k] == a[k];
      } else {
        assert (a + b)[k] == b[k - |a|];
      }
    }
  }

  lemma {:induction false} FlatIsPlain(lists: seq<seq<string>>)
    requires forall k :: 0 <= k < |lists| ==> Plain(lists[k])
    ensures Plain(Flat(lists))
  {
    if lists != [] {
      FlatIsPlain(lists[1..]);
      PlainJoin(lists[0], Flat(lists[1..]));
    }
  }

  lemma CutRooted(path: string)
    requires path != "" && path[0] == '/'
    ensures Cut(path, 0, 0) == Cut(path, 1, 1)
  {
    assert Separator(path, 0);
    assert Piece(path, 0, 0) == [];
  }

  lemma SplitOfRooted(rest: seq<string>)
    requires forall k :: 0 <= k < |rest| ==> PlainName(rest[k])
    ensures Names(ROOT + Slashed(rest)) == [ROOT] + rest
  {
    var tail := Slashed(rest);
    var path := ROOT + tail;
    assert '\\' !in path by { SlashedPlain(rest); }
    assert path[1..] == tail;
    assert Cut(path, 1, 1) == rest by { CutSlashed(path, 1, rest); }
    CutRooted(path);
    PlainNames(path);
  }

  lemma SplitOfNamed(n: string, rest: seq<string>)
    requires PlainName(n) && forall k :: 0 <= k < |rest| ==> PlainName(rest[k])
    ensures Names(n + Slashed(rest)) == [n] + rest
  {
    var path := n + Slashed(rest);
    SlashedPlain(rest);
    PlainNames(path);
    assert path[0] == n[0];
    assert path[0..] == n + Slashed(rest);
    CutName(path, 0, n, rest);
  }

  /** The pieces of all the paths, in order. */
  function Pieces(paths: seq<string>): seq<string> {
    if paths == [] then [] else Cut(paths[0], 0, 0) + Pieces(paths[1..])
  }

  /** Splitting what the joiner writes gives the pieces of all the paths, the first one's root kept. */
  lemma SplitOfJoin(paths: seq<string>)
    requires paths != [] && forall k :: 0 <= k < |paths| ==> paths[k] != "" && '\\' !in paths[k]
    ensures Parsed(Joined(AllKept(paths))) == (if paths[0][0] == '/' then [ROOT] else []) + Pieces(paths)
  {
    SplitGivesKept(paths);
    KeptArePieces(paths);
  }

  lemma KeptArePieces(paths: seq<string>)
    requires paths != [] && forall k :: 0 <= k < |paths| ==> paths[k] != "" && '\\' !in paths[k]
    ensures Flat(AllKept(paths)) == (if paths[0][0] == '/' then [ROOT] else []) + Pieces(paths)
  {
    AllKeptIs(paths);
    FlatIsPieces(paths[1..]);
    FirstKept(paths[0]);
    Assoc(if paths[0][0] == '/' then [ROOT] else [], Cut(paths[0], 0, 0), Pieces(paths[1..]));
  }

  /** The names of a path without its root. */
  function Unrooted(path: string): seq<string> {
    var names := Parsed(path);
    if names != [] && names[0] == ROOT then names[1..] else names
  }

  function AllUnrooted(paths: seq<string>): (r: seq<seq<string>>)
    ensures |r| == |paths| && forall k :: 0 <= k < |r| ==> r[k] == Unrooted(paths[k])
  {
    if paths == [] then [] else [Unrooted(paths[0])] + AllUnrooted(paths[1..])
  }

  lemma AllKeptIs(paths: seq<string>)
    requires paths != []
    ensures AllKept(paths) == [Parsed(paths[0])] + AllUnrooted(paths[1..])
    ensures Flat(AllKept(paths)) == Parsed(paths[0]) + Flat(AllUnrooted(paths[1..]))
  {
    var all, rest := AllKept(paths), AllUnrooted(paths[1..]);
    forall k | 0 <= k < |all| ensures all[k] == ([Parsed(paths[0])] + rest)[k] {
      assert all[k] == Kept(paths, k);
    }
    assert all[1..] == rest;
  }

  /** Without their roots paths give their pieces. */
  lemma {:induction false} FlatIsPieces(paths: seq<string>)
    requires forall k :: 0 <= k < |paths| ==> paths[k] != "" && '\\' !in paths[k]
    ensures Flat(AllUnrooted(paths)) == Pieces(paths)
  {
    if paths != [] {
      FlatIsPieces(paths[1..]);
      UnrootedIsCut(paths[0]);
      assert AllUnrooted(paths)[1..] == AllUnrooted(paths[1..]);
    }
  }

  lemma FirstKept(path: string)
    requires path != "" && '\\' !in path
    ensures Parsed(path) == (if path[0] == '/' then [ROOT] else []) + Cut(path, 0, 0)
  {
    PlainNames(path);
    PlainIsClear(path);
    ParsedIsNamesIff(path);
  }

  lemma UnrootedIsCut(path: string)
    requires path != "" && '\\' !in path
    ensures Unrooted(path) == Cut(path, 0, 0)
  {
    FirstKept(path);
    PlainNames(path);
    var cut := Cut(path, 0, 0);
    if path[0] == '/' {
      assert ([ROOT] + cut)[1..] == cut;
    } else {
      assert [] + cut == cut && PlainName(cut[0]);
    }
  }

  lemma SplitGivesKept(paths: seq<string>)
    requires paths != [] && forall k :: 0 <= k < |paths| ==> paths[k] != "" && '\\' !in paths[k]
    ensures Parsed(Joined(AllKept(paths))) == Flat(AllKept(paths))
  {
    PlainNames(paths[0]);
    PlainIsClear(paths[0]);
    ParsedIsNamesIff(paths[0]);
    KeptIsPlain(paths, 0);
    var all := AllKept(paths);
    assert all == [all[0]] + all[1..];
    forall k | 0 <= k < |all[1..]| ensures Plain(all[1..][k]) {
      KeptIsPlain(paths, k + 1);
      assert all[1..][k] == Kept(paths, k + 1);
    }
    FlatIsPlain(all[1..]);
    SplitOfLists(all[0], all[1..]);
    JoinedIsPlain(all[0], all[1..]);
    PlainIsClear(Joined(all));
    ParsedIsNamesIff(Joined(all));
  }

  lemma JoinedIsPlain(first: seq<string>, others: seq<seq<string>>)
    requires first != [] && (first[0] == ROOT || PlainName(first[0]))
    requires forall k :: 1 <= k < |first| ==> PlainName(first[k])
    requires forall k :: 0 <= k < |Flat(others)| ==> PlainName(Flat(others)[k])
    ensures '\\' !in Joined([first] + others)
  {
    JoinedOfFirst(first, others);
    PlainJoin(first[1..], Flat(others));
    SlashedPlain(first[1..] + Flat(others));
  }

  lemma JoinedOfFirst(first: seq<string>, others: seq<seq<string>>)
    requires first != []
    ensures Joined([first] + others) == first[0] + Slashed(first[1..] + Flat(others))
    ensures Flat([first] + others) == [first[0]] + (first[1..] + Flat(others))
  {
    assert ([first] + others)[0] == first && ([first] + others)[1..] == others;
    assert first == [first[0]] + first[1..];
    Assoc([first[0]], first[1..], Flat(others));
  }

  lemma SplitOfLists(first: seq<string>, others: seq<seq<string>>)
    requires first != [] && (first[0] == ROOT || PlainName(first[0]))
    requires forall k :: 1 <= k < |first| ==> PlainName(first[k])
    requires forall k :: 0 <= k < |Flat(others)| ==> PlainName(Flat(others)[k])
    ensures Names(Joined([first] + others)) == Flat([first] + others)
  {
    var rest := first[1..] + Flat(others);
    JoinedOfFirst(first, others);
    PlainJoin(first[1..], Flat(others));
    if first[0] == ROOT { SplitOfRooted(rest); } else { SplitOfNamed(first[0], rest); }
  }

  // ---------- The joiner's two passes ----------

  /** The first pass over the lists of names. */
  method CountBytes(lists: seq<seq<string>>) returns (total: nat)
    ensures total == Counted(lists)
  {
    total := 0;
    var it := 0;
    ghost var extra := if lists != [] && lists[0] != [] && lists[0][0] == ROOT then 2 else 0;
    while it < |lists|
      invariant 0 <= it <= |lists|
      invariant total + |Slashed(Flat(lists[it..]))| + (if it > 0 then extra else 0) == |Slashed(Flat(lists))|
    {
      var names := lists[it];
      var it2 := 0;
      assert lists[it..][1..] == lists[it + 1..];
      SlashedJoin(names, Flat(lists[it + 1..]));
      ghost var skipped := if it == 0 then extra else 0;
      while it2 < |names|
        invariant 0 <= it2 <= |names|
        invariant total + |Slashed(names[it2..])| + (if it2 > 0 then skipped else 0) +
            |Slashed(Flat(lists[it + 1..]))| + (if it > 0 then extra else 0) == |Slashed(Flat(lists))|
      {
        assert names[it2..][1..] == names[it2 + 1..];
        if it != 0 || it2 != 0 || names[it2] != ROOT {
          total := total + |names[it2]| + 1;
        }
        it2 := it2 + 1;
      }
      it := it + 1;
    }
    if extra == 2 { assert Flat(lists) == [ROOT] + (lists[0][1..] + Flat(lists[1..])); }
  }

  method CopyName(path: array<char>, at: nat, name: string)
    requires at + |name| <= path.Length
    modifies path
    ensures path[..] == Splice(old(path[..]), at, name)
  {
    var i := 0;
    while i < |name|
      invariant 0 <= i <= |name|
      invariant forall j :: 0 <= j < path.Length ==> path[j] == if at <= j < at + i then name[j - at] else old(path[j])
    {
      path[at + i] := name[i];
      i := i + 1;
    }
  }

  /** The characters written for one list of names. */
  function Text(names: seq<string>, first: bool): string {
    if first && names != [] then names[0] + Slashed(names[1..]) else Slashed(names)
  }

  lemma TextOfOne(name: string, first: bool)
    ensures Text([name], first) == if first then name else ROOT + name
  {
    assert [name][1..] == [];
    assert Slashed([]) == "";
    assert Slashed([name]) == ROOT + name;
  }

  /** One round of the inner loop: a slash unless the name is the very first, then the name. */
  method WriteName(path: array<char>, at: nat, name: string, first: bool) returns (end: nat)
    requires at + |Text([name], first)| <= path.Length
    modifies path
    ensures end == at + |Text([name], first)| && path[..] == Splice(old(path[..]), at, Text([name], first))
  {
    end := at;
    ghost var was := path[..];
    TextOfOne(name, first);
    if !first {
      SpliceTwice(was, at, ROOT, name);
      path[end] := '/';
      end := end + 1;
      assert path[..] == Splice(was, at, ROOT);
    }
    CopyName(path, end, name);
    end := end + |name|;
  }

  lemma TextOfFirst(names: seq<string>, it: nat, first: bool)
    requires it < |names| && (first ==> it == 0)
    ensures Text(names[it..], first) == Text([names[it]], first) + Text(names[it + 1..], false)
  {
    var name, rest := names[it], names[it + 1..];
    TextOfOne(name, first);
    assert names[it..][0] == name && names[it..][1..] == rest;
    if first {
      assert Text(names[it..], true) == name + Slashed(rest);
    } else {
      assert Text(names[it..], false) == ROOT + name + Slashed(rest);
    }
  }

  /** Of whole, done is written over was from at on, and left is still to come. */
  ghost predicate Midway(now: seq<char>, was: seq<char>, at: nat, whole: string, done: string, left: string) {
    && whole == done + left && at + |whole| <= |was|
    && now == Splice(was, at, done)
  }

  lemma Start(was: seq<char>, at: nat, whole: string)
    requires at + |whole| <= |was|
    ensures Midway(was, was, at, whole, "", whole)
  {
    assert "" + whole == whole;
    assert Splice(was, at, "") == was;
  }

  lemma Finish(now: seq<char>, was: seq<char>, at: nat, whole: string, done: string)
    requires Midway(now, was, at, whole, done, "")
    ensures done == whole && now == Splice(was, at, whole)
  {
    assert done + "" == done;
  }

  lemma StepOn(now: seq<char>, now': seq<char>, was: seq<char>, at: nat, whole: string, done: string,
      piece: string, left: string)
    requires Midway(now, was, at, whole, done, piece + left) && now' == Splice(now, at + |done|, piece)
    ensures Midway(now', was, at, whole, done + piece, left)
  {
    Assoc(done, piece, left);
    SpliceTwice(was, at, done, piece);
  }

  /** What is still to be written from name it on. */
  function LeftOfNames(names: seq<string>, it: nat, first: bool): string
    requires it <= |names|
  {
    Text(names[it..], first && it == 0)
  }

  lemma LeftOfNamesStep(names: seq<string>, it: nat, first: bool)
    requires it <= |names|
    ensures it < |names| ==>
        LeftOfNames(names, it, first) == Text([names[it]], first && it == 0) + LeftOfNames(names, it + 1, first)
    ensures it == |names| ==> LeftOfNames(names, it, first) == ""
    ensures LeftOfNames(names, 0, first) == Text(names, first)
  {
    assert names[0..] == names;
    if it < |names| { TextOfFirst(names, it, first && it == 0); }
  }

  method WriteNextName(path: array<char>, names: seq<string>, it: nat, first: bool, at: nat, ghost was: seq<char>,
      ghost start: nat, ghost whole: string, ghost done: string)
    returns (end: nat, ghost done': string)
    requires it < |names| && at == start + |done|
    requires Midway(path[..], was, start, whole, done, LeftOfNames(names, it, first))
    modifies path
    ensures end == start + |done'| && Midway(path[..], was, start, whole, done', LeftOfNames(names, it + 1, first))
  {
    LeftOfNamesStep(names, it, first);
    ghost var now, piece := path[..], Text([names[it]], first && it == 0);
    done' := done + piece;
    end := WriteName(path, at, names[it], first && it == 0);
    StepOn(now, path[..], was, start, whole, done, piece, LeftOfNames(names, it + 1, first));
  }

  method WriteNames(path: array<char>, at: nat, names: seq<string>, first: bool) returns (end: nat)
    requires at + |Text(names, first)| <= path.Length
    modifies path
    ensures end == at + |Text(names, first)| && path[..] == Splice(old(path[..]), at, Text(names, first))
  {
    end := at;
    var it2 := 0;
    ghost var was, done, whole := path[..], "", Text(names, first);
    LeftOfNamesStep(names, 0, first);
    Start(was, at, whole);
    while it2 < |names|
      invariant 0 <= it2 <= |names| && end == at + |done|
      invariant Midway(path[..], was, at, whole, done, LeftOfNames(names, it2, first))
    {
      end, done := WriteNextName(path, names, it2, first, end, was, at, whole, done);
      it2 := it2 + 1;
    }
    LeftOfNamesStep(names, it2, first);
    Finish(path[..], was, at, whole, done);
  }

  /** What is still to be written from list it on. */
  function Left(lists: seq<seq<string>>, it: nat): string
    requires it <= |lists|
  {
    if it == 0 then Joined(lists) else Slashed(Flat(lists[it..]))
  }

  lemma JoinedIsTexts(lists: seq<seq<string>>, it: nat)
    requires it <= |lists|
    ensures it < |lists| ==> Left(lists, it) == Text(lists[it], it == 0) + Left(lists, it + 1)
    ensures it == |lists| ==> Left(lists, it) == ""
  {
    if it < |lists| {
      assert lists[it..][1..] == lists[it + 1..];
      SlashedJoin(lists[it], Flat(lists[it + 1..]));
      if lists[0] != [] {
        SlashedJoin(lists[0][1..], Flat(lists[1..]));
      }
    }
  }

  ghost predicate At(it: nat) { true }

  /** The first `it` lists are written. The prover looks into it only for a number it finds in At. */
  ghost predicate Written(now: seq<char>, was: seq<char>, whole: string, lists: seq<seq<string>>, it: nat,
      done: string) {
    forall k: nat {:trigger At(k)} :: At(k) && k == it ==> WrittenNow(now, was, whole, lists, k, done)
  }

  ghost predicate WrittenNow(now: seq<char>, was: seq<char>, whole: string, lists: seq<seq<string>>, it: nat,
      done: string) {
    it <= |lists| && Midway(now, was, 0, whole, done, Left(lists, it))
  }

  lemma NoneWritten(was: seq<char>, lists: seq<seq<string>>)
    requires |Joined(lists)| <= |was|
    ensures Written(was, was, Joined(lists), lists, 0, "")
  {
    Start(was, 0, Joined(lists));
    assert WrittenNow(was, was, Joined(lists), lists, 0, "");
  }

  lemma AllWritten(now: seq<char>, was: seq<char>, lists: seq<seq<string>>, done: string)
    requires Written(now, was, Joined(lists), lists, |lists|, done)
    ensures |Joined(lists)| <= |was| && done == Joined(lists) && now == Splice(was, 0, Joined(lists))
  {
    assert At(|lists|);
    JoinedIsTexts(lists, |lists|);
    Finish(now, was, 0, Joined(lists), done);
  }

  lemma NextText(now: seq<char>, was: seq<char>, whole: string, lists: seq<seq<string>>, it: nat, done: string)
    requires it < |lists| && Written(now, was, whole, lists, it, done)
    ensures |done| + |Text(lists[it], it == 0)| <= |now| == |was|
  {
    assert At(it);
    JoinedIsTexts(lists, it);
  }

  lemma TextWritten(now: seq<char>, now': seq<char>, was: seq<char>, whole: string, lists: seq<seq<string>>,
      it: nat, done: string)
    requires it < |lists| && Written(now, was, whole, lists, it, done) && |done| + |Text(lists[it], it == 0)| <= |now|
    requires now' == Splice(now, |done|, Text(lists[it], it == 0))
    ensures Written(now', was, whole, lists, it + 1, done + Text(lists[it], it == 0))
  {
    assert At(it) && WrittenNow(now, was, whole, lists, it, done);
    JoinedIsTexts(lists, it);
    StepOnLeft(now, now', was, whole, done, Text(lists[it], it == 0), Left(lists, it), Left(lists, it + 1));
    assert WrittenNow(now', was, whole, lists, it + 1, done + Text(lists[it], it == 0));
  }

  lemma StepOnLeft(now: seq<char>, now': seq<char>, was: seq<char>, whole: string, done: string, text: string,
      left: string, left': string)
    requires Midway(now, was, 0, whole, done, left) && left == text + left' && now' == Splice(now, |done|, text)
    ensures Midway(now', was, 0, whole, done + text, left')
  {
    StepOn(now, now', was, 0, whole, done, text, left');
  }

  method WriteList(path: array<char>, lists: seq<seq<string>>, it: nat, at: nat, ghost was: seq<char>,
      ghost whole: string, ghost done: string)
    returns (total: nat, ghost done': string)
    requires it < |lists| && at == |done| && Written(path[..], was, whole, lists, it, done)
    modifies path
    ensures total == |done'| && Written(path[..], was, whole, lists, it + 1, done')
  {
    ghost var now, text := path[..], Text(lists[it], it == 0);
    NextText(now, was, whole, lists, it, done);
    done' := done + text;
    total := WriteNames(path, at, lists[it], it == 0);
    TextWritten(now, path[..], was, whole, lists, it, done);
  }

  /** The second pass: it writes Joined(lists) from the start of the buffer and nothing after it. */
  method WriteLists(path: array<char>, lists: seq<seq<string>>) returns (total: nat)
    requires |Joined(lists)| <= path.Length
    modifies path
    ensures total == |Joined(lists)| && path[..] == Splice(old(path[..]), 0, Joined(lists))
  {
    total := 0;
    var it := 0;
    ghost var was, done := path[..], "";
    NoneWritten(was, lists);
    while it < |lists|
      invariant 0 <= it <= |lists| && total == |done| && Written(path[..], was, Joined(lists), lists, it, done)
    {
      total, done := WriteList(path, lists, it, total, was, Joined(lists), done);
      it := it + 1;
    }
    AllWritten(path[..], was, lists, done);
  }

  lemma ParsedNotEmpty(path: string)
    requires path != ""
    ensures Parsed(path) != []
  {
    if !Separator(path, 0) { ScanNotEmpty(path, 0, 1); }
  }

  /** The lists of names of all paths. An empty path after the first would have no first name to look at. */
  method SplitAll(paths: seq<string>) returns (lists: seq<seq<string>>)
    requires forall k :: 0 <= k < |paths| ==> CString(paths[k]) && (k > 0 ==> paths[k] != "")
    ensures lists == AllKept(paths)
  {
    lists := [];
    ghost var kept := AllKept(paths);
    for it := 0 to |paths|
      invariant lists == kept[..it]
    {
      var names := SplitPath(paths[it]);
      if it > 0 { ParsedNotEmpty(paths[it]); }
      if it != 0 && names[0] == ROOT {
        names := names[1..];
      }
      lists := lists + [names];
    }
    assert lists == kept;
  }

  /** The buffer kzalloc gives is all NUL; all writes fall inside it. */
  method JoinPaths(paths: seq<string>) returns (path: array<char>, written: nat)
    requires forall k :: 0 <= k < |paths| ==> CString(paths[k]) && (k > 0 ==> paths[k] != "")
    ensures path.Length == Counted(AllKept(paths)) + 1
    ensures written <= path.Length && path[..written] == Joined(AllKept(paths))
    ensures forall i :: written <= i < path.Length ==> path[i] == '\0'
    ensures written < path.Length <==> !(paths != [] && RootFirst(paths[0]))
  {
    var lists := SplitAll(paths);
    var total := CountBytes(lists);
    path := new char[total + 1](_ => '\0');
    JoinedFits(lists);
    NulFitsIff(paths);
    ghost var zeros := path[..];
    written := WriteLists(path, lists);
    assert path[..] == zeros[..0] + Joined(lists) + zeros[written..];
  }
}
