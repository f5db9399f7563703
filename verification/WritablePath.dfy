/** Canonical names of user files: FAT-style spellings of one path share one name. */
module WritablePath {

  function LowerChar(c: char): char {
    if 'A' <= c <= 'Z' then ((c as int) + 32) as char else c
  }

  function FoldChar(c: char): char {
    if c == '\\' then '/' else LowerChar(c)
  }

  function Fold(s: string): string {
    seq(|s|, i requires 0 <= i < |s| => FoldChar(s[i]))
  }

  /** Index of the first '/' at or after `from`, or the length if there is none. */
  function FindSlash(s: string, from: nat): (i: nat)
    requires from <= |s|
    ensures from <= i <= |s|
    ensures i < |s| ==> s[i] == '/'
    ensures forall k :: from <= k < i ==> s[k] != '/'
    decreases |s| - from
  {
    if from == |s| || s[from] == '/' then from else FindSlash(s, from + 1)
  }

  function Split(s: string): (parts: seq<string>)
    ensures |parts| > 0
    decreases |s|
  {
    var i := FindSlash(s, 0);
    if i == |s| then [s] else [s[..i]] + Split(s[i + 1..])
  }

  function Push(stack: seq<string>, part: string): seq<string> {
    if part == "" || part == "." then stack
    else if part == ".." then (if stack == [] then [] else stack[..|stack| - 1])
    else stack + [part]
  }

  /** Walks the components from `stack`; ".." at the root stays at the root. */
  function Resolve(stack: seq<string>, parts: seq<string>): seq<string>
    decreases |parts|
  {
    if parts == [] then stack else Resolve(Push(stack, parts[0]), parts[1..])
  }

  function Join(parts: seq<string>): string {
    if parts == [] then "" else if |parts| == 1 then parts[0] else parts[0] + "/" + Join(parts[1..])
  }

  /** Where a spelling leads, as a list of components. */
  function Components(s: string): seq<string> {
    Resolve([], Split(Fold(s)))
  }

  function Normalize(s: string): string {
    Join(Components(s))
  }

  method NormalizeWritablePath(spelling: string) returns (normalized: string)
    ensures normalized == Normalize(spelling)
  {
    var path := FoldPath(spelling);
    var parts := WalkComponents(path);
    ComponentsAreClean(spelling);
    assert parts == Components(spelling);
    assert forall k :: 0 <= k < |parts| ==> Clean(parts[k]);
    normalized := JoinParts(parts);
  }

  method FoldPath(spelling: string) returns (path: string)
    ensures path == Fold(spelling)
  {
    path := [];
    for i := 0 to |spelling|
      invariant path == Fold(spelling)[..i]
    {
      path := path + [FoldChar(spelling[i])];
    }
  }

  method WalkComponents(path: string) returns (parts: seq<string>)
    ensures parts == Resolve([], Split(path))
  {
    hide Split, Resolve, Push;
    parts := [];
    var pos := 0;
    assert path[0..] == path;
    ghost var rest := Split(path);
    if path == "" {
      NothingToWalk();
    }
    while pos < |path|
      invariant pos <= |path|
      invariant pos < |path| ==> rest == Split(path[pos..])
      invariant pos == |path| ==> rest == [] || rest == [""]
      invariant Resolve([], Split(path)) == Resolve(parts, rest)
    {
      var next := FindSlash(path, pos);
      var part := path[pos..next];
      SplitAt(path, pos, next);
      NextComponent(parts, rest);
      parts := PushPart(parts, part);
      rest := rest[1..];
      if next == |path| {
        assert rest == [];
        break;
      }
      pos := next + 1;
      if pos == |path| {
        assert path[pos..] == "";
        NothingToWalk();
      }
    }
    assert rest == [] || rest == [""];
    EndOfWalk(parts);
  }

  method PushPart(parts: seq<string>, part: string) returns (pushed: seq<string>)
    ensures pushed == Push(parts, part)
  {
    pushed := parts;
    if part != "" && part != "." {
      if part == ".." {
        if pushed != [] {
          pushed := pushed[..|pushed| - 1];
        }
      } else {
        pushed := pushed + [part];
      }
    }
  }

  lemma NothingToWalk()
    ensures Split("") == [""]
  {
  }

  lemma NextComponent(parts: seq<string>, rest: seq<string>)
    requires rest != []
    ensures Resolve(parts, rest) == Resolve(Push(parts, rest[0]), rest[1..])
  {
  }

  lemma EndOfWalk(parts: seq<string>)
    ensures Resolve(parts, []) == parts && Resolve(parts, [""]) == parts
  {
    assert [""][1..] == [];
  }

  method JoinParts(parts: seq<string>) returns (normalized: string)
    requires forall k :: 0 <= k < |parts| ==> parts[k] != ""
    ensures normalized == Join(parts)
  {
    normalized := "";
    for i := 0 to |parts|
      invariant normalized == Join(parts[..i])
    {
      JoinOneMore(parts[..i], parts[i]);
      assert parts[..i + 1] == parts[..i] + [parts[i]];
      if normalized != "" {
        normalized := normalized + "/";
      }
      normalized := normalized + parts[i];
    }
    assert parts[..|parts|] == parts;
  }

  lemma SplitUnfolds(s: string, i: nat)
    requires i == FindSlash(s, 0)
    ensures Split(s) == if i == |s| then [s] else [s[..i]] + Split(s[i + 1..])
  {
  }

  lemma SplitAt(path: string, pos: nat, next: nat)
    requires pos < |path| && next == FindSlash(path, pos)
    ensures Split(path[pos..]) ==
            if next == |path| then [path[pos..next]] else [path[pos..next]] + Split(path[next + 1..])
  {
    hide Split;
    var s, i := path[pos..], next - pos;
    FindSlashFrom(path, pos);
    SplitUnfolds(s, i);
    assert s[..i] == path[pos..next];
    if next < |path| {
      assert s[i + 1..] == path[next + 1..];
    } else {
      assert s == path[pos..next];
    }
  }

  lemma FindSlashFrom(path: string, pos: nat)
    requires pos <= |path|
    ensures FindSlash(path[pos..], 0) == FindSlash(path, pos) - pos
  {
    FirstSlash(path[pos..], FindSlash(path, pos) - pos);
  }

  /** The first slash is the only index that has one and none before it. */
  lemma FirstSlash(s: string, i: nat)
    requires i <= |s| && (i < |s| ==> s[i] == '/') && forall k :: 0 <= k < i ==> s[k] != '/'
    ensures FindSlash(s, 0) == i
  {
  }

  // ----- what a canonical name looks like ---------------------------------

  ghost predicate Plain(part: string) {
    forall i :: 0 <= i < |part| ==> part[i] != '/' && FoldChar(part[i]) == part[i]
  }

  /** A component of a canonical name: not empty, not a dot name, no separator, no backslash, no upper case. */
  ghost predicate Clean(part: string) {
    part != "" && part != "." && part != ".." && Plain(part)
  }

  lemma FoldFolds(c: char)
    ensures FoldChar(FoldChar(c)) == FoldChar(c)
    ensures FoldChar(c) != '\\' && !('A' <= FoldChar(c) <= 'Z')
  {
  }

  lemma {:induction false} SplitIsPlain(s: string)
    requires forall i :: 0 <= i < |s| ==> FoldChar(s[i]) == s[i]
    ensures forall k :: 0 <= k < |Split(s)| ==> Plain(Split(s)[k])
    decreases |s|
  {
    var i := FindSlash(s, 0);
    if i < |s| {
      SplitIsPlain(s[i + 1..]);
    }
  }

  lemma {:induction false} ResolveIsClean(stack: seq<string>, parts: seq<string>)
    requires forall k :: 0 <= k < |stack| ==> Clean(stack[k])
    requires forall k :: 0 <= k < |parts| ==> Plain(parts[k])
    ensures forall k :: 0 <= k < |Resolve(stack, parts)| ==> Clean(Resolve(stack, parts)[k])
    decreases |parts|
  {
    if parts != [] {
      ResolveIsClean(Push(stack, parts[0]), parts[1..]);
    }
  }

  lemma ComponentsAreClean(s: string)
    ensures forall k :: 0 <= k < |Components(s)| ==> Clean(Components(s)[k])
  {
    forall i | 0 <= i < |s| ensures FoldChar(Fold(s)[i]) == Fold(s)[i] {
      FoldFolds(s[i]);
    }
    SplitIsPlain(Fold(s));
    ResolveIsClean([], Split(Fold(s)));
  }

  // ----- joining and splitting --------------------------------------------

  lemma {:induction false} JoinOneMore(parts: seq<string>, part: string)
    requires forall k :: 0 <= k < |parts| ==> parts[k] != ""
    ensures Join(parts + [part]) == if parts == [] then part else Join(parts) + "/" + part
    ensures Join(parts) == "" <==> parts == []
  {
    if |parts| > 1 {
      assert (parts + [part])[1..] == parts[1..] + [part];
      JoinOneMore(parts[1..], part);
    } else if |parts| == 1 {
      assert (parts + [part])[1..] == [part];
    }
  }

  lemma {:induction false} SplitConcat(a: string, b: string)
    ensures Split(a + "/" + b) == Split(a) + Split(b)
    decreases |a|
  {
    var s, i := a + "/" + b, FindSlash(a, 0);
    FirstSlash(s, i);
    if i == |a| {
      assert s[..i] == a && s[i + 1..] == b;
    } else {
      assert s[..i] == a[..i] && s[i + 1..] == a[i + 1..] + "/" + b;
      SplitConcat(a[i + 1..], b);
    }
  }

  lemma SplitPlain(part: string)
    requires Plain(part)
    ensures Split(part) == [part]
  {
    FirstSlash(part, |part|);
  }

  lemma {:induction false} SplitJoin(parts: seq<string>)
    requires parts != [] && forall k :: 0 <= k < |parts| ==> Plain(parts[k])
    ensures Split(Join(parts)) == parts
  {
    SplitPlain(parts[0]);
    if |parts| > 1 {
      SplitJoin(parts[1..]);
      SplitConcat(parts[0], Join(parts[1..]));
    }
  }

  lemma {:induction false} ResolveConcat(stack: seq<string>, a: seq<string>, b: seq<string>)
    ensures Resolve(stack, a + b) == Resolve(Resolve(stack, a), b)
    decreases |a|
  {
    if a == [] {
      assert a + b == b;
    } else {
      assert (a + b)[1..] == a[1..] + b;
      ResolveConcat(Push(stack, a[0]), a[1..], b);
    }
  }

  lemma {:induction false} ResolveClean(stack: seq<string>, parts: seq<string>)
    requires forall k :: 0 <= k < |parts| ==> Clean(parts[k])
    ensures Resolve(stack, parts) == stack + parts
    decreases |parts|
  {
    if parts != [] {
      ResolveClean(stack + [parts[0]], parts[1..]);
    }
  }

  lemma {:induction false} JoinIsFolded(parts: seq<string>)
    requires forall k :: 0 <= k < |parts| ==> Plain(parts[k])
    ensures Fold(Join(parts)) == Join(parts)
  {
    if |parts| > 1 {
      JoinIsFolded(parts[1..]);
      FoldConcat(parts[0] + "/", Join(parts[1..]));
    }
  }

  lemma FoldConcat(a: string, b: string)
    ensures Fold(a + b) == Fold(a) + Fold(b)
  {
  }

  lemma ComponentsOfJoin(parts: seq<string>)
    requires forall k :: 0 <= k < |parts| ==> Clean(parts[k])
    ensures Components(Join(parts)) == parts
  {
    JoinIsFolded(parts);
    if parts == [] {
      assert Split("") == [""];
    } else {
      SplitJoin(parts);
      ResolveClean([], parts);
    }
  }

  // ----- main results -----------------------------------------------------

  /** A canonical name leads where its spelling leads, and splits into clean components only. */
  lemma NormalizeKeepsComponents(s: string)
    ensures Components(Normalize(s)) == Components(s)
    ensures Normalize(s) != "" ==> Split(Normalize(s)) == Components(s)
    ensures forall k :: 0 <= k < |Components(s)| ==> Clean(Components(s)[k])
  {
    ComponentsAreClean(s);
    ComponentsOfJoin(Components(s));
    if Normalize(s) != "" {
      SplitJoin(Components(s));
    }
  }

  /** Two spellings get one canonical name exactly when they lead to the same place. */
  lemma SameNameIff(p: string, q: string)
    ensures Normalize(p) == Normalize(q) <==> Components(p) == Components(q)
  {
    NormalizeKeepsComponents(p);
    NormalizeKeepsComponents(q);
  }

  lemma NormalizeIdempotent(s: string)
    ensures Normalize(Normalize(s)) == Normalize(s)
  {
    NormalizeKeepsComponents(s);
  }

  /** A path may be canonicalized before or after something is appended below it. */
  lemma NormalizeBelow(p: string, q: string)
    ensures Normalize(p + "/" + q) == Normalize(Normalize(p) + "/" + q)
  {
    var n := Normalize(p);
    NormalizeKeepsComponents(p);
    ComponentsBelow(p, q);
    ComponentsBelow(n, q);
  }

  lemma ComponentsBelow(p: string, q: string)
    ensures Components(p + "/" + q) == Resolve(Components(p), Split(Fold(q)))
  {
    FoldConcat(p + "/", q);
    FoldConcat(p, "/");
    assert Fold(p + "/" + q) == Fold(p) + "/" + Fold(q);
    SplitConcat(Fold(p), Fold(q));
    ResolveConcat([], Split(Fold(p)), Split(Fold(q)));
  }

  /** What one more component does: nothing if empty or a dot, up one level (the root stays) if a double dot,
      and otherwise one level down, without regard to case.  With `Components("")` this decides every path. */
  lemma OneMoreComponent(p: string, part: string)
    requires forall i :: 0 <= i < |part| ==> part[i] != '/' && part[i] != '\\'
    ensures Components("") == []
    ensures var below, at := Components(p + "/" + part), Components(p);
      if part == "" || part == "." then below == at
      else if part == ".." then below == if at == [] then [] else at[..|at| - 1]
      else below == at + [Fold(part)]
  {
    ComponentsBelow(p, part);
    FoldKeepsDots(part);
    FirstSlash(Fold(part), |part|);
    SplitUnfolds(Fold(part), |part|);
    assert [Fold(part)][1..] == [];
    assert Split("") == [""] && [""][1..] == [];
  }

  lemma FoldKeepsDots(part: string)
    ensures |Fold(part)| == |part|
    ensures Fold(part) == "" <==> part == ""
    ensures Fold(part) == "." <==> part == "."
    ensures Fold(part) == ".." <==> part == ".."
    ensures forall i :: 0 <= i < |part| && part[i] != '/' && part[i] != '\\' ==> Fold(part)[i] != '/'
  {
    var f := Fold(part);
    assert forall i :: 0 <= i < |part| ==> f[i] == FoldChar(part[i]);
    if f == "." {
      assert part == [part[0]] && f[0] == '.';
    }
    if f == ".." {
      assert part == [part[0], part[1]] && f[0] == '.' && f[1] == '.';
    }
  }

  /** Folding sends the letters A to Z 32 places on, a backslash to a slash, and nothing else anywhere. */
  lemma FoldedCharacter(s: string, i: nat)
    requires i < |s|
    ensures |Fold(s)| == |s|
    ensures var c, d := s[i] as int, Fold(s)[i] as int;
      d == if 65 <= c <= 90 then c + 32 else if c == 92 then 47 else c
  {
  }

  lemma {:induction false} JoinedCharacters(parts: seq<string>)
    requires forall k :: 0 <= k < |parts| ==> Plain(parts[k])
    ensures forall c :: c in Join(parts) ==> c != '\\' && !('A' <= c <= 'Z')
  {
    if parts != [] {
      forall c | c in parts[0] ensures c != '\\' && !('A' <= c <= 'Z') {
        FoldFolds(c);
      }
      JoinedCharacters(parts[1..]);
    }
  }

  /** A canonical name holds no backslash and no upper-case letter. */
  lemma NormalizeCharacters(s: string)
    ensures forall c :: c in Normalize(s) ==> c != '\\' && !('A' <= c <= 'Z')
  {
    ComponentsAreClean(s);
    JoinedCharacters(Components(s));
  }
}
