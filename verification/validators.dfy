/** The two checks the extension applies to its build settings (src/validators.ts). */
module Validators {
  import opened JsText

  /** The build tools whose command lines the extension knows how to drive. */
  const SupportedBuildTools: seq<string> := ["javac", "mvn", "gradle", "./gradlew"]

  /** `s.split(" ")[0]`: the text before the first space, or all of `s`. */
  function FirstSpaceToken(s: string): (tok: string)
    ensures IsPrefix(tok, s)
    ensures ' ' !in tok
    ensures |tok| == |s| || s[|tok|] == ' '
  {
    s[..FindChar(s, ' ', 0)]
  }

  /** `validateBuildCommand`: the build tool named first is a supported one. */
  function ValidateBuildCommand(buildCommand: string): (ok: bool)
    ensures ok <==> exists tool :: tool in SupportedBuildTools
                      && (buildCommand == tool || IsPrefix(tool + " ", buildCommand))
  {
    var tok := FirstSpaceToken(buildCommand);
    forall tool | tool in SupportedBuildTools && (buildCommand == tool || IsPrefix(tool + " ", buildCommand))
      ensures tool == tok
    {
      ToolIsFirstToken(buildCommand, tool);
    }
    assert tok in SupportedBuildTools ==> buildCommand == tok || IsPrefix(tok + " ", buildCommand);
    tok in SupportedBuildTools
  }

  /** A supported tool, alone or followed by a space, is exactly the first space-separated token. */
  lemma ToolIsFirstToken(s: string, tool: string)
    requires tool in SupportedBuildTools && (s == tool || IsPrefix(tool + " ", s))
    ensures FirstSpaceToken(s) == tool
  {
    assert ' ' !in tool;
    forall i | 0 <= i < |tool|
      ensures s[i] == tool[i]
    {
      if s != tool {
        assert s[i] == s[..|tool| + 1][i] == (tool + " ")[i];
      }
    }
    if s != tool {
      assert s[|tool|] == s[..|tool| + 1][|tool|] == ' ';
    }
    assert FindChar(s, ' ', 0) == |tool|;
  }

  /** Text after the first space never changes the answer. */
  lemma BuildCommandIgnoresArguments(tool: string, rest: string)
    requires ' ' !in tool
    ensures ValidateBuildCommand(tool + " " + rest) == (tool in SupportedBuildTools)
  {
    var s := tool + " " + rest;
    assert forall i :: 0 <= i < |tool| ==> s[i] == tool[i];
    assert s[|tool|] == ' ';
    assert FindChar(s, ' ', 0) == |tool|;
    assert s[..|tool|] == tool;
  }

  /** A command that starts with a space has an empty first token and is refused. */
  lemma LeadingSpaceRefused(rest: string)
    ensures !ValidateBuildCommand(" " + rest)
  {
    var s := " " + rest;
    assert FindChar(s, ' ', 0) == 0;
    assert FirstSpaceToken(s) == "";
  }

  // ---------------------------------------------------------------------------
  // validateClassesFolder: /^([-\w]+|\.{1,2})(\/\w+)*\/?$/gm

  /** `[-\w]` */
  predicate IsSegmentChar(c: char) {
    IsWordChar(c) || c == '-'
  }

  /** `([-\w]+|\.{1,2})`: the first path segment. */
  predicate IsFirstSegment(s: string) {
    s == "." || s == ".." || (|s| > 0 && AllChars(s, IsSegmentChar))
  }

  /** `(\/\w+)*\/?`, read from the left: slash-word segments, then at most one trailing slash. */
  ghost predicate IsSegmentTail(t: string)
    decreases |t|
  {
    t == [] || t == "/"
    || exists j :: 2 <= j <= |t| && t[0] == '/' && AllChars(t[1..j], IsWordChar) && IsSegmentTail(t[j..])
  }

  /** A whole line the pattern accepts between `^` and `$`. */
  ghost predicate IsClassesFolderLine(l: string) {
    exists k :: 1 <= k <= |l| && IsFirstSegment(l[..k]) && IsSegmentTail(l[k..])
  }

  /** The recogniser for the tail: cut at each next slash. */
  function TailOk(t: string): bool
    decreases |t|
  {
    if t == [] then true
    else
      var j := FindChar(t, '/', 1);
      t[0] == '/' && (j == 1 ==> j == |t|) && AllChars(t[1..j], IsWordChar) && TailOk(t[j..])
  }

  /** The recogniser for one line: the first segment runs to the first slash. */
  function ClassesFolderLineOk(l: string): bool {
    var k := FindChar(l, '/', 0);
    IsFirstSegment(l[..k]) && TailOk(l[k..])
  }

  lemma {:induction false} TailOkSpec(t: string)
    ensures TailOk(t) <==> IsSegmentTail(t)
    decreases |t|
  {
    if t != [] && |t| >= 1 {
      var j := FindChar(t, '/', 1);
      TailOkSpec(t[j..]);
      if TailOk(t) && t != "/" {
        assert 2 <= j <= |t| && t[0] == '/' && AllChars(t[1..j], IsWordChar) && IsSegmentTail(t[j..]);
      }
      if IsSegmentTail(t) && t != "/" {
        var j' :| 2 <= j' <= |t| && t[0] == '/' && AllChars(t[1..j'], IsWordChar) && IsSegmentTail(t[j'..]);
        if j' < |t| {
          TailStartsWithSlash(t[j'..]);
        }
        AllCharsSlice(t, 1, j', IsWordChar);
        assert j' == j;
        TailOkSpec(t[j'..]);
      }
    }
  }

  /** A non-empty tail starts with a slash. */
  lemma TailStartsWithSlash(t: string)
    requires IsSegmentTail(t) && t != []
    ensures t[0] == '/'
  {
  }

  /** The recogniser accepts exactly the lines of the pattern's language. */
  lemma ClassesFolderLineOkSpec(l: string)
    ensures ClassesFolderLineOk(l) <==> IsClassesFolderLine(l)
  {
    var k := FindChar(l, '/', 0);
    TailOkSpec(l[k..]);
    if IsClassesFolderLine(l) {
      var k' :| 1 <= k' <= |l| && IsFirstSegment(l[..k']) && IsSegmentTail(l[k'..]);
      if k' < |l| {
        TailStartsWithSlash(l[k'..]);
      }
      FirstSegmentHasNoSlash(l[..k']);
      assert forall i :: 0 <= i < k' ==> l[i] == l[..k'][i];
      assert k' == k;
    }
  }

  lemma FirstSegmentHasNoSlash(s: string)
    requires IsFirstSegment(s)
    ensures forall i :: 0 <= i < |s| ==> s[i] != '/'
  {
  }

  /**
   * `validateClassesFolder`. The literal is evaluated afresh on every call, so `lastIndex` starts
   * at 0, and with the `m` flag `test` succeeds when some line of the input matches as a whole.
   */
  function ValidateClassesFolder(classesFolder: string): (ok: bool)
    ensures ok <==> exists a, b :: IsLine(classesFolder, a, b) && IsClassesFolderLine(classesFolder[a..b])
  {
    forall l | true ensures ClassesFolderLineOk(l) <==> IsClassesFolderLine(l) {
      ClassesFolderLineOkSpec(l);
    }
    SomeLine(classesFolder, ClassesFolderLineOk)
  }

  /** An absolute path (a line starting with `/`) is never a classes folder. */
  lemma AbsolutePathRefused(l: string)
    requires |l| > 0 && l[0] == '/'
    ensures !IsClassesFolderLine(l)
  {
    forall k | 1 <= k <= |l|
      ensures !IsFirstSegment(l[..k])
    {
      assert l[..k][0] == '/';
    }
  }

  /** After the first segment only word characters and slashes occur: no `.`, `..` or `-`. */
  lemma {:induction false} TailCharacters(t: string)
    requires IsSegmentTail(t)
    ensures forall i :: 0 <= i < |t| ==> t[i] == '/' || IsWordChar(t[i])
    decreases |t|
  {
    if t != [] && t != "/" {
      var j :| 2 <= j <= |t| && t[0] == '/' && AllChars(t[1..j], IsWordChar) && IsSegmentTail(t[j..]);
      TailCharacters(t[j..]);
      AllCharsSlice(t, 1, j, IsWordChar);
      assert forall i :: j <= i < |t| ==> t[i] == t[j..][i - j];
    }
  }

  /** In an accepted line every `.` and `-` lies before the first slash. */
  lemma DotsAndHyphensOnlyInFirstSegment(l: string)
    requires IsClassesFolderLine(l)
    ensures forall i :: FindChar(l, '/', 0) <= i < |l| ==> l[i] != '.' && l[i] != '-'
  {
    var k := TailAfterFirstSlash(l);
    TailCharacters(l[k..]);
    forall i | k <= i < |l|
      ensures l[i] != '.' && l[i] != '-'
    {
      assert l[i] == l[k..][i - k];
    }
  }

  /** In an accepted line the tail starts at the first slash. */
  lemma TailAfterFirstSlash(l: string) returns (k: nat)
    requires IsClassesFolderLine(l)
    ensures k == FindChar(l, '/', 0) && k <= |l| && IsSegmentTail(l[k..])
  {
    ClassesFolderLineOkSpec(l);
    k := FindChar(l, '/', 0);
    TailOkSpec(l[k..]);
  }
}
