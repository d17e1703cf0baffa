/** Which files are shell scripts and which directories are not walked: internal/analyser/scanner.go. */
module Scanner {
  import opened Bytes

  const SLASH: byte := '/' as int
  const PERIOD: byte := '.' as int

  /** `filepath.Ext`: from the last period of the last path element on. */
  function Ext(path: ByteString): ByteString {
    if path == [] || path[|path| - 1] == SLASH then []
    else if path[|path| - 1] == PERIOD then [PERIOD]
    else
      var e := Ext(path[..|path| - 1]);
      if e == [] then [] else e + [path[|path| - 1]]
  }

  function Lower(b: byte): byte {
    if 'A' as int <= b <= 'Z' as int then b + 32 else b
  }

  function ToLower(s: ByteString): ByteString {
    seq(|s|, i requires 0 <= i < |s| => Lower(s[i]))
  }

  /** The extensions that are accepted without a look at the file. */
  predicate ShellExtension(ext: ByteString) {
    || ext == [46, 115, 104]                // .sh
    || ext == [46, 98, 97, 115, 104]        // .bash
    || ext == [46, 122, 115, 104]           // .zsh
    || ext == [46, 100, 97, 115, 104]       // .dash
    || ext == [46, 107, 115, 104]           // .ksh
    || ext == [46, 98, 97, 116, 115]        // .bats
  }

  predicate Contains(s: ByteString, sub: ByteString) {
    exists i {:trigger s[i..]} :: 0 <= i <= |s| - |sub| && sub <= s[i..]
  }

  function FirstLine(s: ByteString): ByteString {
    if s == [] || s[0] == NEWLINE then [] else [s[0]] + FirstLine(s[1..])
  }

  /** The first two hundred bytes open with a shebang whose line names a shell. */
  predicate ShellShebang(content: ByteString) {
    var first := if |content| > 200 then content[..200] else content;
    [35, 33] <= first && Contains(FirstLine(first), [115, 104])
  }

  /** `IsShellPath`, for a path and what the disk holds there. */
  predicate IsShellPath(path: ByteString, content: Option<ByteString>) {
    var ext := ToLower(Ext(path));
    if ShellExtension(ext) then true
    else if ext != [] then false
    else content.Some? && ShellShebang(content.value)
  }

  /** For a path with an extension the disk is not consulted. */
  lemma {:induction false} ExtensionDecides(path: ByteString, content: Option<ByteString>)
    requires Ext(path) != []
    ensures IsShellPath(path, content) <==> ShellExtension(ToLower(Ext(path)))
  {
    assert |ToLower(Ext(path))| == |Ext(path)|;
  }

  /** The extension is the part of the last path element from its last period on, and nothing without one. */
  lemma {:induction false} ExtSplits(path: ByteString, k: nat)
    requires k < |path| && path[k] == PERIOD
    requires forall i :: k < i < |path| ==> path[i] != PERIOD && path[i] != SLASH
    ensures Ext(path) == path[k..]
  {
    if k < |path| - 1 {
      var front := path[..|path| - 1];
      ExtSplits(front, k);
      assert path[k..] == front[k..] + [path[|path| - 1]];
    }
  }

  lemma {:induction false} NoExt(path: ByteString, k: nat)
    requires k <= |path| && (k == 0 || path[k - 1] == SLASH)
    requires forall i :: k <= i < |path| ==> path[i] != PERIOD && path[i] != SLASH
    ensures Ext(path) == []
  {
    if k < |path| { NoExt(path[..|path| - 1], k); }
  }

  // ----- shell scripts by the bytes of path and content

  /** The last path element has a period, the last of them at `k`. */
  predicate LastPeriod(path: ByteString, k: nat) {
    k < |path| && path[k] == 46 && forall i :: k < i < |path| ==> path[i] != 46 && path[i] != 47
  }

  predicate HasExtension(path: ByteString) {
    exists k: nat :: k < |path| && LastPeriod(path, k)
  }

  /** The same letters, each in either case. */
  predicate AnyCase(s: ByteString, lower: ByteString) {
    |s| == |lower| && forall i :: 0 <= i < |s| ==> s[i] == lower[i] || (97 <= lower[i] <= 122 && s[i] == lower[i] - 32)
  }

  /** sh, bash, zsh, dash, ksh or bats, in any ASCII case. */
  predicate ShellEnding(s: ByteString) {
    || AnyCase(s, [115, 104])
    || AnyCase(s, [98, 97, 115, 104])
    || AnyCase(s, [122, 115, 104])
    || AnyCase(s, [100, 97, 115, 104])
    || AnyCase(s, [107, 115, 104])
    || AnyCase(s, [98, 97, 116, 115])
  }

  /** What follows the last period of the last path element is one of the six. */
  predicate EndsAsShell(path: ByteString) {
    exists k: nat :: k < |path| && LastPeriod(path, k) && ShellEnding(path[k + 1..])
  }

  /** `#!`, and then `sh` on the first line, within the first two hundred bytes. */
  predicate OpensWithShebang(content: ByteString) {
    && |content| >= 2 && content[0] == 35 && content[1] == 33
    && exists i :: 0 <= i < |content| && NamesShellAt(content, i)
  }

  predicate NamesShellAt(content: ByteString, i: nat) {
    && i + 1 < |content| && i + 1 < 200 && content[i] == 115 && content[i + 1] == 104
    && forall j :: 0 <= j < i ==> content[j] != 10
  }

  lemma LastPeriodUnique(path: ByteString, j: nat, k: nat)
    requires LastPeriod(path, j) && LastPeriod(path, k)
    ensures j == k
  {
  }

  lemma AnyCaseIff(s: ByteString, lower: ByteString)
    requires forall i :: 0 <= i < |lower| ==> 97 <= lower[i] <= 122
    ensures AnyCase(s, lower) <==> ToLower(s) == lower
  {
    if AnyCase(s, lower) {
      forall i | 0 <= i < |s| ensures ToLower(s)[i] == lower[i] {
        assert s[i] == lower[i] || s[i] == lower[i] - 32;
      }
    } else if ToLower(s) == lower {
      forall i | 0 <= i < |s| ensures s[i] == lower[i] || (97 <= lower[i] <= 122 && s[i] == lower[i] - 32) {
        assert ToLower(s)[i] == Lower(s[i]);
      }
      assert false;
    }
  }

  lemma LowerDotted(s: ByteString)
    ensures ToLower([PERIOD] + s) == [46] + ToLower(s)
  {
    var dotted := [PERIOD] + s;
    forall i | 0 <= i < |dotted| ensures ToLower(dotted)[i] == ([46] + ToLower(s))[i] {
      if i > 0 { assert dotted[i] == s[i - 1]; }
    }
  }

  lemma EndingIff(s: ByteString, lower: ByteString, ext: ByteString)
    requires ext == [46] + lower && forall i :: 0 <= i < |lower| ==> 97 <= lower[i] <= 122
    ensures AnyCase(s, lower) <==> ToLower([PERIOD] + s) == ext
  {
    AnyCaseIff(s, lower);
    LowerDotted(s);
    assert ext[1..] == lower && ([46] + ToLower(s))[1..] == ToLower(s);
  }

  lemma ShellEndingIff(s: ByteString)
    ensures ShellEnding(s) <==> ShellExtension(ToLower([PERIOD] + s))
  {
    EndingIff(s, [115, 104], [46, 115, 104]);
    EndingIff(s, [98, 97, 115, 104], [46, 98, 97, 115, 104]);
    EndingIff(s, [122, 115, 104], [46, 122, 115, 104]);
    EndingIff(s, [100, 97, 115, 104], [46, 100, 97, 115, 104]);
    EndingIff(s, [107, 115, 104], [46, 107, 115, 104]);
    EndingIff(s, [98, 97, 116, 115], [46, 98, 97, 116, 115]);
  }

  lemma {:induction false} ExtHasPeriod(path: ByteString) returns (k: nat)
    requires Ext(path) != []
    ensures LastPeriod(path, k)
  {
    if path[|path| - 1] == PERIOD {
      k := |path| - 1;
    } else {
      k := ExtHasPeriod(path[..|path| - 1]);
    }
  }

  lemma {:induction false} FirstLineEnds(s: ByteString) returns (e: nat)
    ensures e <= |s| && FirstLine(s) == s[..e] && (e < |s| ==> s[e] == 10) && forall j :: 0 <= j < e ==> s[j] != 10
  {
    if s == [] || s[0] == NEWLINE {
      e := 0;
    } else {
      e := FirstLineEnds(s[1..]);
      assert s[..e + 1] == [s[0]] + s[1..][..e];
      forall j | 0 <= j < e + 1 ensures s[j] != 10 {
        if j > 0 { assert s[1..][j - 1] == s[j]; }
      }
      e := e + 1;
    }
  }

  lemma {:induction false} ShebangIff(content: ByteString)
    ensures ShellShebang(content) <==> OpensWithShebang(content)
  {
    var first := if |content| > 200 then content[..200] else content;
    var e := FirstLineEnds(first);
    ContainsIff(first[..e]);
    if ShellShebang(content) {
      var i :| 0 <= i < e - 1 && SpellsSh(first[..e], i);
      assert NamesShellAt(content, i);
      assert first[0] == 35 && first[1] == 33;
    }
    if OpensWithShebang(content) {
      var i :| 0 <= i < |content| && NamesShellAt(content, i);
      assert i + 1 < |first| && first[i] == 115 && first[i + 1] == 104;
      OnFirstLine(first, i, e);
      assert SpellsSh(first[..e], i);
      assert first[..2] == [35, 33];
    }
  }

  lemma OnFirstLine(first: ByteString, i: nat, e: nat)
    requires i + 1 < |first| && first[i] != 10 && first[i + 1] != 10 && forall j :: 0 <= j < i ==> first[j] != 10
    requires e <= |first| && (e < |first| ==> first[e] == 10)
    ensures i + 1 < e
  {
  }

  predicate SpellsSh(s: ByteString, i: nat) {
    i + 1 < |s| && s[i] == 115 && s[i + 1] == 104
  }

  lemma ContainsIff(s: ByteString)
    ensures Contains(s, [115, 104]) <==> exists i :: 0 <= i < |s| - 1 && SpellsSh(s, i)
  {
    var sh: ByteString := [115, 104];
    if Contains(s, sh) {
      var i :| 0 <= i <= |s| - |sh| && sh <= s[i..];
      assert s[i..][0] == sh[0] && s[i..][1] == sh[1];
      assert SpellsSh(s, i);
    }
    if i :| 0 <= i < |s| - 1 && SpellsSh(s, i) {
      assert s[i..][0] == sh[0] && s[i..][1] == sh[1];
      assert sh <= s[i..];
    }
  }

  /** The extension that the program computes, by the bytes of the path. */
  lemma {:induction false} ExtensionIff(path: ByteString)
    ensures Ext(path) != [] <==> HasExtension(path)
    ensures ShellExtension(ToLower(Ext(path))) <==> EndsAsShell(path)
  {
    if Ext(path) != [] {
      var k := ExtHasPeriod(path);
      assert HasExtension(path);
    } else {
      assert ToLower(Ext(path)) == [];
    }
    forall k: nat | k < |path| && LastPeriod(path, k)
      ensures Ext(path) != [] && (ShellExtension(ToLower(Ext(path))) <==> ShellEnding(path[k + 1..]))
    {
      ExtSplits(path, k);
      assert path[k..] == [PERIOD] + path[k + 1..];
      ShellEndingIff(path[k + 1..]);
    }
  }

  /** With a period in the last path element the six endings decide, whatever the disk has. */
  lemma {:induction false} EndingDecides(path: ByteString, content: Option<ByteString>, k: nat)
    requires LastPeriod(path, k)
    ensures IsShellPath(path, content) <==> ShellEnding(path[k + 1..])
  {
    ExtensionIff(path);
    assert HasExtension(path);
    ExtensionDecides(path, content);
    forall j: nat | j < |path| && LastPeriod(path, j) ensures j == k { LastPeriodUnique(path, j, k); }
  }

  /**
   Exactly the paths with one of the six endings, and those without an extension whose file opens with
   the shebang of a shell, are shell scripts.
   */
  lemma {:induction false} ShellPathIff(path: ByteString, content: Option<ByteString>)
    ensures IsShellPath(path, content) <==>
      EndsAsShell(path) || (!HasExtension(path) && content.Some? && OpensWithShebang(content.value))
  {
    ExtensionIff(path);
    assert |ToLower(Ext(path))| == |Ext(path)|;
    if content.Some? { ShebangIff(content.value); }
  }
}
