/** The source-text edits the package installer makes to the library registry file
    (`src/stdlib.rs`), seen as its sequence of lines, and the repository name it
    derives from a git URL. */
module Packages {
  import opened Base
  import opened Text

  // ------------------------------------------------------------------
  // Module declaration
  // ------------------------------------------------------------------

  function Declaration(name: string): string
  {
    "pub mod " + name + ";"
  }

  /** A line that, trimmed, reads as a module declaration. */
  predicate IsModLine(line: string)
  {
    StartsWith(TrimRust(line), "pub mod ") && EndsWith(TrimRust(line), ";")
  }

  /** The index just after the last set flag, or 0 when none is set. */
  function AfterLastSet(flags: seq<bool>): (k: nat)
    ensures k <= |flags|
    ensures k > 0 ==> flags[k - 1]
    ensures forall i :: k <= i < |flags| ==> !flags[i]
  {
    if |flags| == 0 then 0
    else if flags[|flags| - 1] then |flags|
    else AfterLastSet(flags[..|flags| - 1])
  }

  /** The index just after the last module declaration line, or 0 when there is none. */
  function DeclarationSlot(lines: seq<string>): (k: nat)
    ensures k <= |lines|
    ensures k > 0 ==> IsModLine(lines[k - 1])
    ensures forall i :: k <= i < |lines| ==> !IsModLine(lines[i])
  {
    var flags := seq(|lines|, i requires 0 <= i < |lines| => IsModLine(lines[i]));
    assert forall i :: 0 <= i < |lines| ==> (flags[i] <==> IsModLine(lines[i]));
    AfterLastSet(flags)
  }

  /** `integrate_module_declaration`: nothing when the declaration already occurs in
      the text, otherwise the declaration on a line of its own after the last
      module declaration (at the top when there is none). */
  function IntegrateDeclaration(lines: seq<string>, name: string): (r: seq<string>)
    ensures Contains(Join(lines, "\n"), Declaration(name)) ==> r == lines
    ensures !Contains(Join(lines, "\n"), Declaration(name)) ==>
      var k := DeclarationSlot(lines);
      && |r| == |lines| + 1
      && r[..k] == lines[..k] && r[k] == Declaration(name) && r[k + 1..] == lines[k..]
  {
    if Contains(Join(lines, "\n"), Declaration(name)) then lines
    else
      var k := DeclarationSlot(lines);
      var r := lines[..k] + [Declaration(name)] + lines[k..];
      assert r[k + 1..] == lines[k..];
      r
  }

  /** After the edit the declaration is in the text. */
  lemma DeclarationPresent(lines: seq<string>, name: string)
    ensures Contains(Join(IntegrateDeclaration(lines, name), "\n"), Declaration(name))
  {
    var r := IntegrateDeclaration(lines, name);
    if !Contains(Join(lines, "\n"), Declaration(name)) {
      ContainsJoinedPart(r, "\n", DeclarationSlot(lines));
    }
  }

  /** Regrouping of the registration line around the marker it contains. */
  lemma Regroup(a: string, b: string, n: string, c: string, m: string, e: string)
    ensures a + (b + n + c + m + e) == (a + b + n + c) + (m + e)
  {
  }

  /** Running the edit twice is running it once. */
  lemma DeclarationIdempotent(lines: seq<string>, name: string)
    ensures IntegrateDeclaration(IntegrateDeclaration(lines, name), name) == IntegrateDeclaration(lines, name)
  {
    DeclarationPresent(lines, name);
  }

  /** The edit only adds: removing the one new line gives back the original lines,
      in order. */
  lemma DeclarationKeepsLines(lines: seq<string>, name: string)
    ensures var r := IntegrateDeclaration(lines, name);
      r == lines || exists k :: 0 <= k < |r| && r[..k] + r[k + 1..] == lines && r[k] == Declaration(name)
  {
    var r := IntegrateDeclaration(lines, name);
    if r != lines {
      var k := DeclarationSlot(lines);
      assert r[..k] + r[k + 1..] == lines[..k] + lines[k..] == lines;
    }
  }

  // ------------------------------------------------------------------
  // Module registration
  // ------------------------------------------------------------------

  const RegisterFn := "pub fn register_stdlib"

  function Registration(name: string): string
  {
    "globals.define(\"" + name + "\".to_string(), " + Marker(name) + ", false, false);"
  }

  function Marker(name: string): string
  {
    name + "::create_module()"
  }

  predicate IsDefineLine(line: string)
  {
    StartsWith(TrimRust(line), "globals.define(")
  }

  /** Line i is at or after the first line that mentions the registration function. */
  predicate InRegisterFn(lines: seq<string>, i: nat)
  {
    exists j :: 0 <= j <= i && j < |lines| && Contains(lines[j], RegisterFn)
  }

  /** Line i is a candidate: a define line inside the registration function. */
  predicate Eligible(lines: seq<string>, i: nat)
    requires i < |lines|
  {
    InRegisterFn(lines, i) && IsDefineLine(lines[i])
  }

  /** Entering line i: the flag is on when it was on before or line i mentions the
      registration function. */
  lemma InRegisterStep(lines: seq<string>, i: nat)
    requires i < |lines|
    ensures InRegisterFn(lines, i) <==> (i > 0 && InRegisterFn(lines, i - 1)) || Contains(lines[i], RegisterFn)
  {
    if InRegisterFn(lines, i) && !Contains(lines[i], RegisterFn) {
      var j :| 0 <= j <= i && j < |lines| && Contains(lines[j], RegisterFn);
      assert j < i;
    }
    if i > 0 && InRegisterFn(lines, i - 1) {
      var j :| 0 <= j <= i - 1 && j < |lines| && Contains(lines[j], RegisterFn);
      assert j <= i;
    }
  }

  /** The source's loop from line i on: `inFn` is the flag, `last` the index after the
      last candidate seen. */
  function ScanDefines(lines: seq<string>, i: nat, inFn: bool, last: nat): nat
    requires i <= |lines|
    decreases |lines| - i
  {
    if i == |lines| then last
    else
      var inFn' := inFn || Contains(lines[i], RegisterFn);
      ScanDefines(lines, i + 1, inFn', if inFn' && IsDefineLine(lines[i]) then i + 1 else last)
  }

  /** k is just after the last candidate line, or 0 when there is none. */
  predicate SlotAfterLast(lines: seq<string>, k: nat)
  {
    && k <= |lines|
    && (k > 0 ==> Eligible(lines, k - 1))
    && (forall j :: k <= j < |lines| ==> !Eligible(lines, j))
  }

  /** What the scan's state means after lines[..i]. */
  predicate ScanInvariant(lines: seq<string>, i: nat, inFn: bool, last: nat)
  {
    && i <= |lines|
    && (inFn <==> (i > 0 && InRegisterFn(lines, i - 1)))
    && last <= i
    && (last > 0 ==> Eligible(lines, last - 1))
    && (forall j :: last <= j < i ==> !Eligible(lines, j))
  }

  /** The scan finds the index just after the last candidate line, or 0 when there
      is none. */
  lemma {:induction false} ScanDefinesSpec(lines: seq<string>, i: nat, inFn: bool, last: nat)
    requires ScanInvariant(lines, i, inFn, last)
    ensures SlotAfterLast(lines, ScanDefines(lines, i, inFn, last))
    decreases |lines| - i
  {
    if i < |lines| {
      var inFn' := inFn || Contains(lines[i], RegisterFn);
      var last' := if inFn' && IsDefineLine(lines[i]) then i + 1 else last;
      ScanStep(lines, i, inFn, last);
      assert ScanDefines(lines, i, inFn, last) == ScanDefines(lines, i + 1, inFn', last');
      ScanDefinesSpec(lines, i + 1, inFn', last');
    }
  }

  /** One turn of the scan keeps its invariant. */
  lemma ScanStep(lines: seq<string>, i: nat, inFn: bool, last: nat)
    requires i < |lines|
    requires ScanInvariant(lines, i, inFn, last)
    ensures var inFn' := inFn || Contains(lines[i], RegisterFn);
      ScanInvariant(lines, i + 1, inFn', if inFn' && IsDefineLine(lines[i]) then i + 1 else last)
  {
    InRegisterStep(lines, i);
  }

  /** The line the registration goes after, plus one; 0 when there is none. */
  function RegistrationSlot(lines: seq<string>): (k: nat)
    ensures k <= |lines|
    ensures k > 0 ==> Eligible(lines, k - 1)
    ensures forall j :: k <= j < |lines| ==> !Eligible(lines, j)
  {
    ScanDefinesSpec(lines, 0, false, 0);
    ScanDefines(lines, 0, false, 0)
  }

  /** `integrate_module_registration`: nothing when `name::create_module()` already
      occurs; otherwise the registration, indented four spaces, after the last
      define line of the registration function; nothing when it has none. */
  function IntegrateRegistration(lines: seq<string>, name: string): (r: seq<string>)
    ensures Contains(Join(lines, "\n"), Marker(name)) || RegistrationSlot(lines) == 0 ==> r == lines
    ensures !Contains(Join(lines, "\n"), Marker(name)) && RegistrationSlot(lines) > 0 ==>
      var k := RegistrationSlot(lines);
      && |r| == |lines| + 1
      && r[..k] == lines[..k] && r[k] == "    " + Registration(name) && r[k + 1..] == lines[k..]
  {
    if Contains(Join(lines, "\n"), Marker(name)) then lines
    else
      var k := RegistrationSlot(lines);
      if k == 0 then lines
      else
        var r := lines[..k] + ["    " + Registration(name)] + lines[k..];
        assert r[k + 1..] == lines[k..];
        r
  }

  /** The inserted line carries the marker the edit looks for. */
  lemma RegistrationHasMarker(name: string)
    ensures Contains("    " + Registration(name), Marker(name))
  {
    var head := "    " + "globals.define(\"" + name + "\".to_string(), ";
    var tail := ", false, false);";
    Regroup("    ", "globals.define(\"", name, "\".to_string(), ", Marker(name), tail);
    ContainsSelf(Marker(name));
    ContainsAppend(Marker(name), tail, Marker(name));
    ContainsConcat(head, Marker(name) + tail, Marker(name));
  }

  /** Running the edit twice is running it once. */
  lemma RegistrationIdempotent(lines: seq<string>, name: string)
    ensures IntegrateRegistration(IntegrateRegistration(lines, name), name) == IntegrateRegistration(lines, name)
  {
    var r := IntegrateRegistration(lines, name);
    if r != lines {
      var k := RegistrationSlot(lines);
      RegistrationHasMarker(name);
      ContainsJoinedPart(r, "\n", k);
      assert Contains(r[k], Marker(name));
      ContainsWithin(Join(r, "\n"), r[k], Marker(name));
    }
  }

  /** Containment is transitive. */
  lemma {:induction false} ContainsWithin(s: string, t: string, needle: string)
    requires Contains(s, t) && Contains(t, needle)
    ensures Contains(s, needle)
    decreases |s|
  {
    if StartsWith(s, t) {
      StartsWithContains(s, t, needle);
    } else {
      ContainsWithin(s[1..], t, needle);
    }
  }

  lemma {:induction false} StartsWithContains(s: string, t: string, needle: string)
    requires StartsWith(s, t) && Contains(t, needle)
    ensures Contains(s, needle)
    decreases |t|
  {
    if StartsWith(t, needle) {
      assert s[..|needle|] == t[..|needle|];
    } else {
      assert StartsWith(s[1..], t[1..]) by { assert s[1..][..|t[1..]|] == s[..|t|][1..]; }
      StartsWithContains(s[1..], t[1..], needle);
    }
  }

  // ------------------------------------------------------------------
  // Repository name
  // ------------------------------------------------------------------

  /** The last '/'-separated piece of a URL with its `.git` suffix removed. */
  function RepoName(url: string): (r: Result<string, string>)
    ensures r.Ok? ==> '/' !in r.value && EndsWith(url, r.value + ".git")
    ensures r.Err? ==> r.error == "URL de repositório inválida."
  {
    var parts := Split(url, '/');
    var last := parts[|parts| - 1];
    if EndsWith(last, ".git") then
      var name := last[..|last| - 4];
      assert '/' !in name by {
        forall i | 0 <= i < |name| ensures name[i] != '/' { assert name[i] == last[i]; }
      }
      assert name + ".git" == last;
      LastPieceIsSuffix(url, '/');
      assert EndsWith(url, name + ".git") by {
        assert url[|url| - |last|..] == last;
      }
      Ok(name)
    else Err("URL de repositório inválida.")
  }

  /** The last piece of a split is a suffix of the text. */
  lemma {:induction false} LastPieceIsSuffix(s: string, sep: char)
    ensures var parts := Split(s, sep); var last := parts[|parts| - 1];
      |last| <= |s| && s[|s| - |last|..] == last
    decreases |s|
  {
    if |s| > 0 {
      LastPieceIsSuffix(s[1..], sep);
      var rest := Split(s[1..], sep);
      if s[0] != sep && |rest| == 1 {
        assert Split(s, sep) == [[s[0]] + rest[0]];
        assert [s[0]] + s[1..] == s;
      }
    }
  }

  /** A URL ending in `/name.git` yields name. */
  lemma RepoNameOfGitUrl(prefix: string, name: string)
    requires '/' !in name
    ensures RepoName(prefix + "/" + name + ".git") == Ok(name)
  {
    var tail := name + ".git";
    assert '/' !in tail;
    var url := prefix + "/" + name + ".git";
    assert url == prefix + ['/'] + tail;
    SplitConcat(prefix, tail, '/');
    SplitNoSeparator(tail, '/');
    var parts := Split(url, '/');
    assert parts[|parts| - 1] == tail;
    assert tail[..|tail| - 4] == name;
  }

  /** A bare `name.git` with no slash at all is its own last piece. */
  lemma RepoNameOfBareName(name: string)
    requires '/' !in name
    ensures RepoName(name + ".git") == Ok(name)
  {
    var tail := name + ".git";
    assert '/' !in tail;
    SplitNoSeparator(tail, '/');
    assert tail[..|tail| - 4] == name;
  }

  /** A URL whose last piece lacks the suffix is refused. */
  lemma RepoNameNeedsSuffix(prefix: string, name: string)
    requires '/' !in name && !EndsWith(name, ".git")
    ensures RepoName(prefix + "/" + name).Err?
  {
    var url := prefix + "/" + name;
    assert url == prefix + ['/'] + name;
    SplitConcat(prefix, name, '/');
    SplitNoSeparator(name, '/');
  }
}
