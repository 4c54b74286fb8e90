/** Pipe names and locations expanded to the directory of the pipe. */
module PathExpand {
  import opened Prelude

  const INVALID_ARG := -6
  const MAX_NAME_LEN := 32
  const MAX_PATH_LEN := 96

  function BaseDir(): string {
    "/run/mpa/"
  }

  predicate Printable(c: char) {
    ' ' < c <= '~'
  }

  ghost predicate AllPrintable(s: string) {
    forall i :: 0 <= i < |s| ==> Printable(s[i])
  }

  ghost predicate NoSlash(s: string) {
    forall i :: 0 <= i < |s| ==> s[i] != '/'
  }

  /** The printable characters of `s`, in order. */
  function Filter(s: string): string {
    if |s| == 0 then [] else Filter(s[..|s| - 1]) + (if Printable(s[|s| - 1]) then [s[|s| - 1]] else [])
  }

  lemma {:induction false} FilterLaws(s: string)
    ensures AllPrintable(Filter(s)) && |Filter(s)| <= |s|
    ensures Filter(s) == s <==> AllPrintable(s)
    ensures |Filter(s)| == |s| ==> AllPrintable(s)
    ensures s != "" && Printable(s[0]) ==> Filter(s) != "" && Filter(s)[0] == s[0]
  {
    if |s| > 0 {
      FilterLaws(s[..|s| - 1]);
    }
  }

  /** Filtering looks at one character at a time. */
  lemma {:induction false} FilterAppends(a: string, b: string)
    ensures Filter(a + b) == Filter(a) + Filter(b)
  {
    if b == "" {
      assert a + b == a;
    } else {
      var n := |b| - 1;
      FilterAppends(a, b[..n]);
      assert (a + b)[..|a| + n] == a + b[..n];
    }
  }

  function WithSlash(path: string): string {
    if path != "" && path[|path| - 1] == '/' then path else path + "/"
  }

  function Prefix(s: string): string
    requires s != ""
  {
    if s[0] == '/' then "" else BaseDir()
  }

  function Expand(s: string): Option<string> {
    if s == "" || s == "/" then None else Some(WithSlash(Prefix(s) + Filter(s)))
  }

  lemma BaseIsPrintable()
    ensures AllPrintable(BaseDir()) && |BaseDir()| == 9
  {
  }

  lemma PrintableAppends(a: string, b: string)
    ensures AllPrintable(a + b) <==> AllPrintable(a) && AllPrintable(b)
  {
    if AllPrintable(a + b) {
      assert forall i :: 0 <= i < |a| ==> a[i] == (a + b)[i];
      assert forall i :: 0 <= i < |b| ==> b[i] == (a + b)[|a| + i];
    }
  }

  /** Every accepted input gives a printable path that starts and ends with a slash. */
  lemma ExpandedPathsAreDirectories(s: string)
    requires Expand(s).Some?
    ensures var r := Expand(s).value;
            r != "" && AllPrintable(r) && r[0] == '/' && r[|r| - 1] == '/' && |r| <= |BaseDir()| + |s| + 1
  {
    FilterLaws(s);
    BaseIsPrintable();
    PrintableAppends(Prefix(s), Filter(s));
    PrintableAppends(Prefix(s) + Filter(s), "/");
  }

  /** Expanding once more changes nothing, unless the path is just the root: then it is refused. */
  lemma ExpandIsIdempotentExactly(s: string)
    requires Expand(s).Some?
    ensures Expand(Expand(s).value) == Expand(s) <==> Expand(s).value != "/"
    ensures Expand(s).value == "/" <==> s[0] == '/' && Filter(s) == "/"
  {
    ExpandedPathsAreDirectories(s);
    FilterLaws(s);
    var r := Expand(s).value;
    FilterLaws(r);
    BaseIsPrintable();
    if r != "/" {
      assert Prefix(r) + Filter(r) == r;
    }
  }

  // ---------------------------------------------------------------------------
  // Names

  /** One past the last slash at or before position `i`, or 0. */
  function AfterSlash(dir: string, i: int): (start: nat)
    requires i < |dir|
    ensures start <= Max(i + 1, 0)
    ensures start > 0 ==> dir[start - 1] == '/'
    ensures forall k :: start <= k <= i ==> dir[k] != '/'
    decreases i + 1
  {
    if i < 0 then 0 else if dir[i] == '/' then i + 1 else AfterSlash(dir, i - 1)
  }

  function InitialName(): string {
    "unknown"
  }

  /** The name the deprecated initialiser finds in a directory: what follows the last slash but the final one. */
  function NameIn(dir: string): string {
    var start := AfterSlash(dir, |dir| - 3);
    if start > 0 then dir[start..|dir| - 1] else InitialName()
  }

  method NameOf(dir: string) returns (name: string)
    ensures name == NameIn(dir)
  {
    name := InitialName();
    var start := 0;
    var i := |dir| - 3;
    while i >= 0
      invariant i <= |dir| - 3 && start == 0
      invariant AfterSlash(dir, i) == AfterSlash(dir, |dir| - 3)
    {
      if dir[i] == '/' {
        start := i + 1;
        break;
      }
      i := i - 1;
    }
    if start > 0 {
      name := dir[start..|dir| - 1];
    }
  }

  /** A name without a slash, put under the base directory, is found again. */
  lemma NameUnderBase(name: string)
    requires name != "" && NoSlash(name)
    ensures NameIn(BaseDir() + name + "/") == name
  {
    var dir := BaseDir() + name + "/";
    var start := AfterSlash(dir, |dir| - 3);
    assert dir[|BaseDir()| - 1] == '/';
    assert forall i :: 0 <= i < |name| ==> dir[|BaseDir()| + i] == name[i];
    assert start == |BaseDir()|;
  }

  /** A name of visible characters is put under the base directory as it is. */
  lemma ExpandName(name: string)
    requires name != "" && forall i :: 0 <= i < |name| ==> '!' <= name[i] <= '~' && name[i] != '/'
    ensures Expand(name) == Some("/run/mpa/" + name + "/")
  {
    FilterLaws(name);
    assert AllPrintable(name);
    var path := BaseDir() + name;
    assert Prefix(name) + Filter(name) == path && path[|path| - 1] == name[|name| - 1] != '/';
  }

  /** What is found in a directory, but for its last character, has no slash. */
  lemma NameInDirectory(dir: string, start: nat, name: string)
    requires |dir| >= 2 && start < |dir| && start == AfterSlash(dir, |dir| - 3) && dir[start..|dir| - 1] == name
    requires AllPrintable(dir)
    ensures AllPrintable(name) && |name| == |dir| - 1 - start
    ensures forall i :: 0 <= i < |name| - 1 ==> name[i] != '/'
    ensures |name| > 0 ==> name[|name| - 1] == dir[|dir| - 2]
  {
    assert forall i :: 0 <= i < |name| ==> name[i] == dir[start + i];
  }

  /** A path of visible characters stays as it is, but for a slash at its end. */
  lemma ExpandPath(path: string)
    requires |path| > 1 && path[0] == '/' && forall i :: 0 <= i < |path| ==> '!' <= path[i] <= '~'
    ensures Expand(path) == Some(if path[|path| - 1] == '/' then path else path + "/")
  {
    FilterLaws(path);
    assert AllPrintable(path);
    assert "" + path == path;
  }

  /** Blanks and characters that are not visible ASCII are dropped wherever they stand; nothing else is refused. */
  lemma ExpandDrops(a: string, c: char, b: string)
    requires !('!' <= c <= '~') && a != "" && (a[0] == '/' ==> |a| + |b| > 1)
    ensures Expand(a + [c] + b) == Expand(a + b)
  {
    FilterAppends(a + [c], b);
    FilterAppends(a, [c]);
    FilterAppends(a, b);
    assert Filter([c]) == [] by {
      assert [c][..0] == [];
    }
    assert Filter(a + [c] + b) == Filter(a) + [] + Filter(b) == Filter(a + b);
    assert (a + [c] + b)[0] == a[0] == (a + b)[0];
    assert |a + [c] + b| > 1 && (a + b)[0] == '/' ==> |a + b| > 1;
  }

  /** A topic that is found again had no slash and lost no character. */
  lemma FoundAgain(topic: string, start: nat)
    requires Expand(topic).Some? && start == AfterSlash(Expand(topic).value, |Expand(topic).value| - 3) && start > 0
    requires Expand(topic).value[start..|Expand(topic).value| - 1] == topic
    ensures NoSlash(topic) && AllPrintable(topic)
  {
    var dir := Expand(topic).value;
    ExpandedPathsAreDirectories(topic);
    NameInDirectory(dir, start, topic);
    FilterLaws(topic);
  }

  /** The initialiser finds the topic itself exactly when that is a printable name without a slash. */
  lemma InitRecoversNameExactly(topic: string)
    requires Expand(topic).Some?
    ensures NameIn(Expand(topic).value) == topic <==> NoSlash(topic) && AllPrintable(topic)
  {
    if NoSlash(topic) && AllPrintable(topic) {
      ExpandName(topic);
      NameUnderBase(topic);
    } else if NameIn(Expand(topic).value) == topic {
      var start := AfterSlash(Expand(topic).value, |Expand(topic).value| - 3);
      if start > 0 {
        FoundAgain(topic, start);
      }
    }
  }

  predicate UnknownAt(name: string, i: nat) {
    i + 7 <= |name| && name[i..i + 7] == "unknown"
  }

  /** What creation demands: lengths, no slash in the name, and nowhere the initialiser's own default. */
  ghost predicate Creatable(name: string, location: string) {
    && 0 < |name| < MAX_NAME_LEN && |location| < MAX_PATH_LEN
    && NoSlash(name)
    && forall i: nat :: i < |name| ==> !UnknownAt(name, i)
  }

  /** The directory a pipe is created in. */
  ghost function CreateDir(name: string, location: string): Option<string> {
    if !Creatable(name, location) then None
    else if location == "" || location[0] != '/' then Expand(name)
    else Expand(location)
  }

  /** Nothing else stands against a name of visible characters, and it is used as it is. */
  lemma CreatedExactly(name: string)
    requires forall i :: 0 <= i < |name| ==> '!' <= name[i] <= '~'
    ensures CreateDir(name, "").Some? <==>
            0 < |name| <= 31 && '/' !in name && forall i: nat :: !UnknownAt(name, i)
    ensures CreateDir(name, "").Some? ==> CreateDir(name, "") == Some("/run/mpa/" + name + "/")
  {
    assert forall i :: 0 <= i < |name| ==> name[i] in name;
    if Creatable(name, "") {
      ExpandName(name);
    }
  }

  /**
   * Creating by name, and creating by the directory that the initialiser makes of it, use
   * one directory, and a name that may not be used is refused both ways.
   */
  lemma InitKeepsDirectory(name: string)
    requires Expand(name).Some?
    ensures CreateDir(name, "") == if Creatable(name, "") then Expand(name) else None
    ensures CreateDir(name, Expand(name).value) == CreateDir(name, "")
  {
    ExpandedPathsAreDirectories(name);
    ExpandIsIdempotentExactly(name);
  }

  // ---------------------------------------------------------------------------
  // The program

  /** The loop over the input, writing from `start` on. */
  method CopyPrintable(s: string, out: array<char>, start: nat) returns (len: nat)
    requires start + |s| <= out.Length
    modifies out
    ensures len == start + |Filter(s)| <= out.Length
    ensures out[..start] == old(out[..start]) && out[start..len] == Filter(s)
  {
    len := start;
    for i := 0 to |s|
      invariant start <= len <= start + i && len == start + |Filter(s[..i])|
      invariant out[..start] == old(out[..start]) && out[start..len] == Filter(s[..i])
    {
      assert s[..i + 1][..i] == s[..i];
      if ' ' < s[i] <= '~' {
        out[len] := s[i];
        len := len + 1;
      }
    }
    assert s[..|s|] == s;
  }

  method WritePrefix(s: string, out: array<char>) returns (len: nat)
    requires s != "" && out.Length >= |BaseDir()|
    modifies out
    ensures len <= |BaseDir()| && out[..len] == Prefix(s)
  {
    len := 0;
    if s[0] != '/' {
      forall i | 0 <= i < |BaseDir()| {
        out[i] := BaseDir()[i];
      }
      len := |BaseDir()|;
    }
  }

  method EndWithSlash(out: array<char>, len: nat)
    requires 0 < len && len + 1 < out.Length
    modifies out
    ensures var path := WithSlash(old(out[..len]));
            |path| < out.Length && out[..|path|] == path && out[|path|] == '\0'
  {
    out[len] := '\0';
    if out[len - 1] != '/' {
      out[len] := '/';
      out[len + 1] := '\0';
    }
  }

  /** The caller provides a buffer that is long enough; the original does not check. */
  method ExpandLocationString(s: string, out: array<char>) returns (r: int)
    requires '\0' !in s && out.Length >= |BaseDir()| + |s| + 2
    modifies out
    ensures r == if Expand(s).Some? then 0 else INVALID_ARG
    ensures Expand(s).Some? ==>
              var path := Expand(s).value;
              |path| < out.Length && out[..|path|] == path && out[|path|] == '\0'
    ensures Expand(s).None? ==> out[..] == old(out[..])
  {
    var len: nat := |s|;
    if len < 1 {
      return INVALID_ARG;
    }
    if len == 1 && s[0] == '/' {
      return INVALID_ARG;
    }
    len := WritePrefix(s, out);
    var start := len;
    len := CopyPrintable(s, out, start);
    FilterLaws(s);
    assert out[..len] == out[..start] + out[start..len] == Prefix(s) + Filter(s);
    EndWithSlash(out, len);
    return 0;
  }
}
