/**
 * The .NET string operations the importer relies on, as they behave on the
 * paths and patterns it handles (ordinal comparison, ASCII paths without
 * newlines). A C# `null` string is modelled either as the empty string, where
 * the code treats both alike, or as `Option.None` where it tells them apart.
 */
module Text {

  datatype Option<+T> = None | Some(value: T) {
    function GetOr(default: T): T {
      match this
      case Some(v) => v
      case None => default
    }
  }

  /** Char.IsWhiteSpace, restricted to the Latin-1 range. */
  predicate IsWhiteSpace(c: char) {
    c == ' ' || ('\t' <= c <= '\r') || c == '\U{0085}' || c == '\U{00A0}'
  }

  /** string.IsNullOrWhiteSpace (a null string behaves as the empty one). */
  predicate IsBlank(s: string) {
    forall i :: 0 <= i < |s| ==> IsWhiteSpace(s[i])
  }

  /** No character of `s` belongs to `cs`. */
  predicate NoneOf(s: string, cs: set<char>) {
    forall i :: 0 <= i < |s| ==> s[i] !in cs
  }

  /** string.StartsWith with ordinal comparison. */
  predicate StartsWith(s: string, prefix: string) {
    |prefix| <= |s| && s[..|prefix|] == prefix
  }

  /** string.Contains: `sub` occurs somewhere in `s`. */
  predicate Contains(s: string, sub: string)
    decreases |s|
  {
    StartsWith(s, sub) || (s != [] && Contains(s[1..], sub))
  }

  /** Drops the leading white space. */
  function TrimStart(s: string): string
    decreases |s|
  {
    if s != [] && IsWhiteSpace(s[0]) then TrimStart(s[1..]) else s
  }

  /** Drops the trailing white space. */
  function TrimEnd(s: string): string
    decreases |s|
  {
    if s != [] && IsWhiteSpace(s[|s| - 1]) then TrimEnd(s[..|s| - 1]) else s
  }

  /** What TrimStart drops is a blank front of the string, and all of it. */
  lemma {:induction false} TrimStartFacts(s: string)
    ensures var r := TrimStart(s);
      |r| <= |s| && r == s[|s| - |r|..] && IsBlank(s[..|s| - |r|]) && (r == [] || !IsWhiteSpace(r[0]))
    decreases |s|
  {
    if s != [] && IsWhiteSpace(s[0]) {
      TrimStartFacts(s[1..]);
      var r := TrimStart(s[1..]);
      assert s[|s| - |r|..] == s[1..][|s| - 1 - |r|..];
      assert s[..|s| - |r|] == [s[0]] + s[1..][..|s| - 1 - |r|];
    }
  }

  /** What TrimEnd drops is a blank back of the string, and all of it. */
  lemma {:induction false} TrimEndFacts(s: string)
    ensures var r := TrimEnd(s);
      |r| <= |s| && r == s[..|r|] && IsBlank(s[|r|..]) && (r == [] || !IsWhiteSpace(r[|r| - 1]))
    decreases |s|
  {
    if s != [] && IsWhiteSpace(s[|s| - 1]) {
      TrimEndFacts(s[..|s| - 1]);
      var r := TrimEnd(s[..|s| - 1]);
      assert s[..|r|] == s[..|s| - 1][..|r|];
      assert s[|r|..] == s[..|s| - 1][|r|..] + [s[|s| - 1]];
    }
  }

  /** string.Trim: the text between the leading and the trailing white space. */
  function Trim(s: string): string {
    TrimEnd(TrimStart(s))
  }

  /**
   * A trimmed string is no longer than the original, is empty exactly when
   * the original is blank, and neither starts nor ends with white space.
   */
  lemma TrimFacts(s: string)
    ensures |Trim(s)| <= |s|
    ensures Trim(s) == [] <==> IsBlank(s)
    ensures Trim(s) != [] ==> !IsWhiteSpace(Trim(s)[0]) && !IsWhiteSpace(Trim(s)[|Trim(s)| - 1])
  {
    var t := TrimStart(s);
    var r := TrimEnd(t);
    TrimStartFacts(s);
    TrimEndFacts(t);
    if t == [] {
      assert s == s[..|s| - |t|];
    } else {
      assert t[0] == s[|s| - |t|];
      assert r != [] && r[0] == t[0];
    }
    if IsBlank(s) && t != [] {
      assert false;
    }
  }

  /** Trimming a trimmed string changes nothing, so the rule's stored pattern is stable. */
  lemma TrimIdempotent(s: string)
    ensures Trim(Trim(s)) == Trim(s)
  {
    TrimFacts(s);
    var r := Trim(s);
    if r != [] {
      assert TrimStart(r) == r;
      assert TrimEnd(r) == r;
    }
  }

  /**
   * String.Split on every character of `seps`: the separator-free runs of
   * `s`, in order, empty runs included. There is always at least one part.
   */
  function Split(s: string, seps: set<char>): (parts: seq<string>)
    ensures |parts| >= 1
    decreases |s|
  {
    if s == [] then [[]]
    else
      var rest := Split(s[1..], seps);
      if s[0] in seps then [[]] + rest else [[s[0]] + rest[0]] + rest[1..]
  }

  /** The inverse of splitting on one separator: the parts glued back with it. */
  function Join(parts: seq<string>, sep: char): string
    requires |parts| >= 1
    decreases |parts|
  {
    if |parts| == 1 then parts[0] else parts[0] + [sep] + Join(parts[1..], sep)
  }

  /** One step of Split, stated on its own so proofs need not unfold the definition. */
  lemma SplitStep(s: string, seps: set<char>)
    requires s != []
    ensures s[0] in seps ==> Split(s, seps) == [[]] + Split(s[1..], seps)
    ensures s[0] !in seps ==> Split(s, seps) == [[s[0]] + Split(s[1..], seps)[0]] + Split(s[1..], seps)[1..]
  {
  }

  /** Splitting on one character and joining with it gives the string back. */
  lemma {:induction false} SplitJoin(s: string, sep: char)
    ensures Join(Split(s, {sep}), sep) == s
    decreases |s|
  {
    if s != [] {
      var rest := Split(s[1..], {sep});
      SplitJoin(s[1..], sep);
      SplitStep(s, {sep});
      if s[0] == sep {
        var parts := [[]] + rest;
        assert parts[1..] == rest;
        assert Join(parts, sep) == [] + [sep] + Join(rest, sep);
      } else {
        JoinExtendFirst([s[0]], rest, sep);
      }
      assert s == [s[0]] + s[1..];
    }
  }

  /** Lengthening the first part lengthens the joined string at its front. */
  lemma JoinExtendFirst(h: string, parts: seq<string>, sep: char)
    requires |parts| >= 1
    ensures Join([h + parts[0]] + parts[1..], sep) == h + Join(parts, sep)
  {
    var ps := [h + parts[0]] + parts[1..];
    if |parts| > 1 {
      assert ps[1..] == parts[1..];
    }
  }

  /** A string splits into more than one part exactly when it holds a separator. */
  lemma {:induction false} SplitHasSeveralParts(s: string, seps: set<char>)
    ensures |Split(s, seps)| > 1 <==> !NoneOf(s, seps)
    decreases |s|
  {
    if s != [] {
      SplitHasSeveralParts(s[1..], seps);
      if !NoneOf(s[1..], seps) {
        var i :| 0 <= i < |s[1..]| && s[1..][i] in seps;
        assert s[i + 1] in seps;
      }
      if s[0] !in seps && NoneOf(s[1..], seps) {
        forall i | 0 <= i < |s| ensures s[i] !in seps {
          if i > 0 { assert s[i] == s[1..][i - 1]; }
        }
      }
    }
  }

  /** The last part of a split is the text after the last separator. */
  lemma {:induction false} SplitLast(dir: string, name: string, seps: set<char>)
    requires NoneOf(name, seps)
    requires dir == [] || dir[|dir| - 1] in seps
    ensures Split(dir + name, seps)[|Split(dir + name, seps)| - 1] == name
    decreases |dir|
  {
    if dir == [] {
      assert dir + name == name;
      NoSeparatorOnePart(name, seps);
    } else {
      assert (dir + name)[1..] == dir[1..] + name;
      if |dir| == 1 {
        assert dir[1..] + name == name;
        NoSeparatorOnePart(name, seps);
      } else {
        SplitLast(dir[1..], name, seps);
        var rest := Split(dir[1..] + name, seps);
        assert (dir[1..] + name)[|dir| - 2] in seps;
        SplitHasSeveralParts(dir[1..] + name, seps);
        assert |rest| > 1;
      }
    }
  }

  /** Splitting at a separator splits the two sides independently. */
  lemma {:induction false} SplitAtSeparator(x: string, c: char, y: string, seps: set<char>)
    requires c in seps
    ensures Split(x + [c] + y, seps) == Split(x, seps) + Split(y, seps)
    decreases |x|
  {
    var s := x + [c] + y;
    SplitStep(s, seps);
    if x == [] {
      assert s[0] == c && s[1..] == y;
    } else {
      assert s[0] == x[0] && s[1..] == x[1..] + [c] + y;
      SplitAtSeparator(x[1..], c, y, seps);
      SplitStep(x, seps);
      ConsPartAppend(x[0] in seps, x[0], Split(x[1..], seps), Split(y, seps));
    }
  }

  /** The list algebra behind one step of SplitAtSeparator. */
  lemma ConsPartAppend(isSep: bool, h: char, rest: seq<string>, right: seq<string>)
    requires |rest| >= 1
    ensures var whole := rest + right;
      if isSep then [[]] + whole == ([[]] + rest) + right
      else [[h] + whole[0]] + whole[1..] == ([[h] + rest[0]] + rest[1..]) + right
  {
    var whole := rest + right;
    assert whole[0] == rest[0] && whole[1..] == rest[1..] + right;
  }

  /** A separator-free string is its own only part. */
  lemma {:induction false} NoSeparatorOnePart(s: string, seps: set<char>)
    requires NoneOf(s, seps)
    ensures Split(s, seps) == [s]
    decreases |s|
  {
    if s != [] {
      NoSeparatorOnePart(s[1..], seps);
      assert [s[0]] + s[1..] == s;
    }
  }

  /** The position of the last character of `s` that belongs to `cs`, if any. */
  function LastIndexIn(s: string, cs: set<char>): (r: Option<nat>)
    ensures r.Some? ==> r.value < |s|
    decreases |s|
  {
    if s == [] then None
    else if s[|s| - 1] in cs then Some(|s| - 1)
    else LastIndexIn(s[..|s| - 1], cs)
  }

  /** LastIndexIn finds a member of `cs` with none after it, and misses only when there is none. */
  lemma {:induction false} LastIndexInFacts(s: string, cs: set<char>)
    ensures var r := LastIndexIn(s, cs);
      (r.Some? ==> r.value < |s| && s[r.value] in cs && NoneOf(s[r.value + 1..], cs)) &&
      (r.None? ==> NoneOf(s, cs))
    decreases |s|
  {
    if s != [] && s[|s| - 1] !in cs {
      var init := s[..|s| - 1];
      LastIndexInFacts(init, cs);
      var r := LastIndexIn(init, cs);
      if r.Some? {
        assert s[r.value + 1..] == init[r.value + 1..] + [s[|s| - 1]];
      } else {
        assert forall i :: 0 <= i < |s| - 1 ==> s[i] == init[i];
      }
    }
  }

  /** The last member of `cs` is the one followed only by non-members. */
  lemma {:induction false} LastIndexAt(s: string, k: nat, cs: set<char>)
    requires k < |s| && s[k] in cs && NoneOf(s[k + 1..], cs)
    ensures LastIndexIn(s, cs) == Some(k)
    decreases |s|
  {
    if k < |s| - 1 {
      var init := s[..|s| - 1];
      assert s[|s| - 1] == s[k + 1..][|s| - k - 2];
      assert init[k + 1..] == s[k + 1..][..|s| - k - 2];
      LastIndexAt(init, k, cs);
    }
  }

  /** The directory separators of the editor's platform. */
  const DirectorySeparators: set<char> := {'/', '\\'}

  /**
   * Path.GetExtension: from the last '.' of the file name to the end; empty
   * when the name has no '.' or ends with it.
   */
  function GetExtension(path: string): string {
    match LastIndexIn(path, {'.'} + DirectorySeparators)
    case Some(i) => if path[i] == '.' && i != |path| - 1 then path[i..] else []
    case None => []
  }

  /**
   * A non-empty extension is a '.' and at least one more character, taken
   * from the end of the path, with no separator and no other '.' in it; a
   * path without a '.' has none.
   */
  lemma GetExtensionFacts(path: string)
    ensures var ext := GetExtension(path);
      |ext| <= |path| &&
      (ext != [] ==> ext[0] == '.' && |ext| >= 2 && ext == path[|path| - |ext|..]) &&
      (ext != [] ==> NoneOf(ext, DirectorySeparators) && NoneOf(ext[1..], {'.'})) &&
      (NoneOf(path, {'.'}) ==> ext == [])
  {
    LastIndexInFacts(path, {'.'} + DirectorySeparators);
    match LastIndexIn(path, {'.'} + DirectorySeparators)
    case Some(i) =>
      if path[i] == '.' && i != |path| - 1 {
        assert path[i..][1..] == path[i + 1..];
      }
    case None =>
  }

  /**
   * The other direction: a name ending in '.' and at least one character
   * that is neither '.' nor a separator has that ending as its extension,
   * whatever comes before it (a leading-dot name such as ".hidden" included).
   */
  lemma GetExtensionOfDotted(front: string, ext: string)
    requires ext != [] && NoneOf(ext, {'.'} + DirectorySeparators)
    ensures GetExtension(front + ['.'] + ext) == ['.'] + ext
  {
    var path := front + ['.'] + ext;
    assert path[|front| + 1..] == ext;
    LastIndexAt(path, |front|, {'.'} + DirectorySeparators);
    assert path[|front|..] == ['.'] + ext;
  }
}
