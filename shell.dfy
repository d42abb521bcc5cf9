/** The command shell of kernel/shell.c: its C-string helpers, get_arg,
    the line editor of shell_read_line and the dispatch of shell_execute.
    A C string is the sequence of characters in memory from its first
    character up to and including a NUL. The keys shell_read_line reads
    are given as the sequence keyboard_getchar returns, where 0 means that
    nothing was waiting. What each command then does (printing, the file
    system calls, the statistics) is left to the modules that model it:
    shell_execute is modelled up to the command it selects. The text of
    a C string is Word.Text. */
module Shell {
  import opened Word

  /** The size of cmd_buffer: lines keep at most 127 characters. */
  const CMD_BUFFER_SIZE: nat := 128
  /** The size of the filename buffers of shell_execute as written. */
  const FILENAME_SIZE: nat := 32

  /** The two keys that erase: '\b' and DEL. */
  const BACKSPACE: char := '\U{8}'
  const DEL: char := '\U{7F}'

  /** Characters held in a C `char`. */
  predicate Narrow(s: seq<char>) {
    forall i :: 0 <= i < |s| ==> s[i] as int < 256
  }

  /** strlen. */
  method StrLen(s: seq<char>) returns (n: nat)
    requires '\0' in s
    ensures n == |Text(s)|
  {
    n := 0;
    while s[n] != '\0'
      invariant n <= |Text(s)|
      decreases |Text(s)| - n
    {
      n := n + 1;
    }
  }

  /** strcmp: 0 exactly when the two strings have the same text. */
  method StrCmp(s1: seq<char>, s2: seq<char>) returns (r: int)
    requires '\0' in s1 && '\0' in s2 && Narrow(s1) && Narrow(s2)
    ensures r == 0 <==> Text(s1) == Text(s2)
    ensures -255 <= r <= 255
  {
    ghost var t1, t2 := Text(s1), Text(s2);
    var i := 0;
    while s1[i] != '\0' && s1[i] == s2[i]
      invariant i <= |t1| && i <= |t2| && t1[..i] == t2[..i]
      decreases |t1| - i
    {
      assert t1[..i + 1] == t1[..i] + [s1[i]] && t2[..i + 1] == t2[..i] + [s2[i]];
      i := i + 1;
    }
    r := s1[i] as int - s2[i] as int;
    if s1[i] == s2[i] {
      assert s1[..i] == t1[..i] && s2[..i] == t2[..i];
      assert '\0' !in t1[..i];
      TextAt(s1, i);
      TextAt(s2, i);
    } else if i < |t1| && i < |t2| {
      assert t1[i] != t2[i];
    }
  }

  /** The first n characters of a C string, its terminator included when
      it comes before the n-th: what strncmp looks at. */
  function Head(s: seq<char>, n: nat): (r: seq<char>)
    requires '\0' in s
    ensures |r| <= n && r <= Text(s) + ['\0']
  {
    var z := Text(s) + ['\0'];
    if n < |z| then z[..n] else z
  }

  /** strncmp: 0 exactly when the first n characters agree, counting a
      shared terminator as the end. A negative n does not stop the loop
      from comparing the first characters. */
  method StrNCmp(s1: seq<char>, s2: seq<char>, n: int) returns (r: int)
    requires '\0' in s1 && '\0' in s2 && Narrow(s1) && Narrow(s2)
    ensures n >= 0 ==> (r == 0 <==> Head(s1, n) == Head(s2, n))
    ensures n < 0 ==> (r == 0 <==> s1[0] == s2[0])
  {
    ghost var t1, t2 := Text(s1), Text(s2);
    var i := 0;
    var left := n;
    while left > 0 && s1[i] != '\0' && s1[i] == s2[i]
      invariant i <= |t1| && i <= |t2| && t1[..i] == t2[..i]
      invariant left == n - i && (n >= 0 ==> i <= n) && (n < 0 ==> i == 0)
      decreases |t1| - i
    {
      assert i < |t1| && i < |t2|;
      assert t1[..i + 1] == t1[..i] + [s1[i]] && t2[..i + 1] == t2[..i] + [s2[i]];
      i := i + 1;
      left := left - 1;
    }
    if left == 0 {
      assert i == n;
      HeadsUpTo(s1, s2, i);
      return 0;
    }
    r := s1[i] as int - s2[i] as int;
    assert r == 0 <==> s1[i] == s2[i];
    if n >= 0 {
      assert left > 0 && (s1[i] == '\0' || s1[i] != s2[i]);
      HeadsAt(s1, s2, n, i);
    }
  }

  /** Where strncmp has compared n equal characters, the heads agree. */
  lemma HeadsUpTo(s1: seq<char>, s2: seq<char>, n: nat)
    requires '\0' in s1 && '\0' in s2
    requires n <= |Text(s1)| && n <= |Text(s2)| && Text(s1)[..n] == Text(s2)[..n]
    ensures Head(s1, n) == Head(s2, n)
  {
    var t1, t2 := Text(s1), Text(s2);
    assert (t1 + ['\0'])[..n] == t1[..n] && (t2 + ['\0'])[..n] == t2[..n];
  }

  /** Where strncmp stops before n characters, on a terminator or a
      mismatch, the heads agree exactly when the characters there do. */
  lemma HeadsAt(s1: seq<char>, s2: seq<char>, n: nat, i: nat)
    requires '\0' in s1 && '\0' in s2 && i < n
    requires i <= |Text(s1)| && i <= |Text(s2)| && Text(s1)[..i] == Text(s2)[..i]
    requires s1[i] == '\0' || s1[i] != s2[i]
    ensures Head(s1, n) == Head(s2, n) <==> s1[i] == s2[i]
  {
    var t1, t2 := Text(s1), Text(s2);
    var z1, z2 := t1 + ['\0'], t2 + ['\0'];
    assert z1[i] == s1[i] && z2[i] == s2[i];
    if s1[i] == s2[i] {
      assert i == |t1| && i == |t2|;
      assert t1 == t1[..i] && t2 == t2[..i];
    } else {
      assert Head(s1, n)[i] != Head(s2, n)[i];
    }
  }

  /** strncmp(s, p, |p|) == 0 says that s starts with p. */
  lemma HeadPrefix(s: seq<char>, p: seq<char>)
    requires '\0' in s && '\0' !in p
    ensures Head(s, |p|) == Head(p + ['\0'], |p|) <==> p <= Text(s)
  {
    TextOfLiteral(p);
    assert Head(p + ['\0'], |p|) == p;
    var z := Text(s) + ['\0'];
    if |p| < |z| {
      if p <= Text(s) {
        assert z[..|p|] == Text(s)[..|p|];
      } else {
        assert z[..|p|] == Text(s)[..|p|];
      }
    } else {
      assert z[|z| - 1] == '\0';
      assert '\0' in z;
    }
  }

  /** Where the word that starts at i ends: at the first space from i on,
      or at the end of the text. */
  function WordEnd(t: seq<char>, i: nat): (r: nat)
    requires i <= |t|
    ensures i <= r <= |t| && (r == |t| || t[r] == ' ')
    ensures forall k :: i <= k < r ==> t[k] != ' '
    decreases |t| - i
  {
    if i == |t| || t[i] == ' ' then i else WordEnd(t, i + 1)
  }

  /** Where the run of spaces that starts at i ends. */
  function SpacesEnd(t: seq<char>, i: nat): (r: nat)
    requires i <= |t|
    ensures i <= r <= |t| && (r == |t| || t[r] != ' ')
    ensures forall k :: i <= k < r ==> t[k] == ' '
    decreases |t| - i
  {
    if i == |t| || t[i] != ' ' then i else SpacesEnd(t, i + 1)
  }

  /** What get_arg copies out: the text after the command word and the
      spaces that follow it, verbatim. */
  function Arg(t: seq<char>): (r: seq<char>)
  {
    t[SpacesEnd(t, WordEnd(t, 0))..]
  }

  /** The word ends at the first space. */
  lemma {:induction false} WordEndAt(t: seq<char>, i: nat, j: nat)
    requires i <= j <= |t| && (j == |t| || t[j] == ' ')
    requires forall k :: i <= k < j ==> t[k] != ' '
    ensures WordEnd(t, i) == j
    decreases j - i
  {
    if i < j {
      WordEndAt(t, i + 1, j);
    }
  }

  /** The spaces end at the first non-space. */
  lemma {:induction false} SpacesEndAt(t: seq<char>, i: nat, j: nat)
    requires i <= j <= |t| && (j == |t| || t[j] != ' ')
    requires forall k :: i <= k < j ==> t[k] == ' '
    ensures SpacesEnd(t, i) == j
    decreases j - i
  {
    if i < j {
      SpacesEndAt(t, i + 1, j);
    }
  }

  /** A line made of a word, one or more spaces and an argument that does
      not start with a space has exactly that argument; the argument may
      itself hold spaces. A line without a space has none. */
  lemma ArgOfSplit(w: seq<char>, sp: seq<char>, a: seq<char>)
    requires ' ' !in w && sp != [] && (forall k :: 0 <= k < |sp| ==> sp[k] == ' ')
    requires a == [] || a[0] != ' '
    ensures Arg(w + sp + a) == a
    ensures Arg(w) == []
  {
    var t := w + sp + a;
    WordEndAt(t, 0, |w|);
    SpacesEndAt(t, |w|, |w| + |sp|);
    assert t[|w| + |sp|..] == a;
    WordEndAt(w, 0, |w|);
  }

  /** The argument is a suffix of the line that does not start with a
      space, and everything before it is a word and then spaces. */
  lemma ArgShape(t: seq<char>)
    ensures var a := Arg(t); var s := |t| - |a|;
      && a == t[s..] && (a == [] || a[0] != ' ')
      && (forall k :: 0 <= k < WordEnd(t, 0) ==> t[k] != ' ')
      && (forall k :: WordEnd(t, 0) <= k < s ==> t[k] == ' ')
  {
  }

  /** get_arg into a buffer long enough for the argument and its NUL. The
      buffers shell_execute passes are 32 bytes; see
      GetArgOverflowsFilename. */
  method GetArg(cmd: seq<char>, arg: array<char>)
    requires '\0' in cmd && |Arg(Text(cmd))| < arg.Length
    modifies arg
    ensures var a := Arg(Text(cmd));
      arg[..|a|] == a && arg[|a|] == '\0' && arg[|a| + 1..] == old(arg[|a| + 1..])
  {
    ghost var t := Text(cmd);
    var i := 0;
    while cmd[i] != '\0' && cmd[i] != ' '
      invariant i <= |t| && WordEnd(t, i) == WordEnd(t, 0)
      decreases |t| - i
    {
      i := i + 1;
    }
    ghost var w := i;
    while cmd[i] != '\0' && cmd[i] == ' '
      invariant w <= i <= |t| && SpacesEnd(t, i) == SpacesEnd(t, w)
      decreases |t| - i
    {
      i := i + 1;
    }
    assert Arg(t) == t[i..];
    CopyText(cmd, i, arg);
  }

  /** get_arg's copying loop: the text of cmd from position i on, and its
      NUL, into the start of arg. */
  method CopyText(cmd: seq<char>, i: nat, arg: array<char>)
    requires '\0' in cmd && i <= |Text(cmd)| && |Text(cmd)| - i < arg.Length
    modifies arg
    ensures var a := Text(cmd)[i..];
      arg[..|a|] == a && arg[|a|] == '\0' && arg[|a| + 1..] == old(arg[|a| + 1..])
  {
    ghost var t := Text(cmd);
    var i := i;
    var j := 0;
    ghost var start := i;
    while cmd[i] != '\0'
      invariant start <= i <= |t| && j == i - start
      invariant forall k :: 0 <= k < j ==> arg[k] == t[start + k]
      invariant forall k :: j < k < arg.Length ==> arg[k] == old(arg[k])
      decreases |t| - i
    {
      arg[j] := cmd[i];
      j := j + 1;
      i := i + 1;
    }
    arg[j] := '\0';
    assert arg[..j] == t[start..];
    assert arg[j + 1..] == old(arg[j + 1..]);
  }

  /** A string literal of the shell: no NUL, and each character a C
      `char`. */
  predicate Literal(w: seq<char>) {
    forall k :: 0 <= k < |w| ==> w[k] != '\0' && w[k] as int < 256
  }

  /** The words and prefixes shell_execute tests are such literals. */
  lemma ShellLiterals()
    ensures Literal("help") && Literal("clear") && Literal("echo ") && Literal("ls")
    ensures Literal("cat ") && Literal("touch ") && Literal("rm ")
    ensures Literal("mem") && Literal("sys") && Literal("eren")
  {
  }

  /** `strcmp(cmd_buffer, word) == 0` for a literal word. */
  method Matches(line: seq<char>, word: seq<char>) returns (b: bool)
    requires '\0' in line && Narrow(line) && Literal(word)
    ensures b <==> Text(line) == word
  {
    assert '\0' !in word;
    var r := StrCmp(line, word + ['\0']);
    TextOfLiteral(word);
    b := r == 0;
  }

  /** `strncmp(cmd_buffer, prefix, strlen(prefix)) == 0` for a literal
      prefix. */
  method StartsWith(line: seq<char>, prefix: seq<char>) returns (b: bool)
    requires '\0' in line && Narrow(line) && Literal(prefix)
    ensures b <==> prefix <= Text(line)
  {
    assert '\0' !in prefix;
    var r := StrNCmp(line, prefix + ['\0'], |prefix|);
    HeadPrefix(line, prefix);
    b := r == 0;
  }

  /** A key shell_read_line acts on without ending the line. */
  predicate IsEnter(c: char) {
    c == '\n' || c == '\r'
  }

  /** One key of shell_read_line applied to the line so far: 0 (nothing
      waiting) changes nothing, backspace and DEL remove the last
      character if there is one, and any other key is appended while the
      line is shorter than 127. */
  function Edit(line: seq<char>, c: char): (r: seq<char>)
    requires !IsEnter(c)
    ensures |line| < CMD_BUFFER_SIZE ==> |r| < CMD_BUFFER_SIZE
    ensures '\0' !in line ==> '\0' !in r
    ensures c != '\0' && c != BACKSPACE && c != DEL && |line| < CMD_BUFFER_SIZE - 1 ==> r == line + [c]
  {
    if c == '\0' then line
    else if c == BACKSPACE || c == DEL then (if |line| > 0 then line[..|line| - 1] else line)
    else if |line| < CMD_BUFFER_SIZE - 1 then line + [c]
    else line
  }

  /** The line after the keys, none of them Enter. */
  function Typed(keys: seq<char>): (r: seq<char>)
    requires forall k :: 0 <= k < |keys| ==> !IsEnter(keys[k])
    ensures '\0' !in r
  {
    if keys == [] then [] else Edit(Typed(keys[..|keys| - 1]), keys[|keys| - 1])
  }

  /** Whatever is typed, the line never exceeds 127 characters. */
  lemma {:induction false} TypedFits(keys: seq<char>)
    requires forall k :: 0 <= k < |keys| ==> !IsEnter(keys[k])
    ensures |Typed(keys)| < CMD_BUFFER_SIZE
  {
    if keys != [] {
      TypedFits(keys[..|keys| - 1]);
    }
  }

  /** A key an editor appends as it is. */
  predicate Plain(c: char) {
    c != '\0' && c != BACKSPACE && c != DEL && !IsEnter(c)
  }

  /** Up to 127 plain keys give exactly the line typed. */
  lemma {:induction false} TypedPlain(keys: seq<char>)
    requires |keys| < CMD_BUFFER_SIZE
    requires forall k :: 0 <= k < |keys| ==> !IsEnter(keys[k])
    requires forall k :: 0 <= k < |keys| ==> Plain(keys[k])
    ensures Typed(keys) == keys
  {
    if keys != [] {
      var init := keys[..|keys| - 1];
      TypedPlain(init);
      assert init + [keys[|keys| - 1]] == keys;
    }
  }

  /** A plain key followed by backspace leaves the line as it was, when
      the key was not dropped. */
  lemma BackspaceUndoes(keys: seq<char>, c: char)
    requires forall k :: 0 <= k < |keys| ==> !IsEnter(keys[k])
    requires Plain(c) && |Typed(keys)| < CMD_BUFFER_SIZE - 1
    ensures Typed(keys + [c, BACKSPACE]) == Typed(keys)
  {
    var k1 := keys + [c];
    var k2 := keys + [c, BACKSPACE];
    assert k2[..|k2| - 1] == k1 && k1[..|k1| - 1] == keys;
  }

  /** The position of the first Enter among the keys. */
  function FirstEnter(keys: seq<char>): (r: nat)
    requires exists k :: 0 <= k < |keys| && IsEnter(keys[k])
    ensures r < |keys| && IsEnter(keys[r])
    ensures forall k :: 0 <= k < r ==> !IsEnter(keys[k])
  {
    if IsEnter(keys[0]) then 0
    else
      assert exists k :: 0 <= k < |keys[1..]| && IsEnter(keys[1..][k]) by {
        var k :| 0 <= k < |keys| && IsEnter(keys[k]);
        assert k != 0 && IsEnter(keys[1..][k - 1]);
      }
      1 + FirstEnter(keys[1..])
  }

  /** The dispatch decision of shell_execute. */
  datatype Command =
    | Empty | Help | Clear | Echo(text: seq<char>) | Ls
    | Cat(name: seq<char>) | Touch(name: seq<char>) | Rm(name: seq<char>)
    | Mem | Sys | Eren | Unknown(line: seq<char>)

  /** shell_execute's tests, in its order: exact words, and prefixes for
      echo, cat, touch and rm, whose argument is what get_arg extracts. */
  function Classify(t: seq<char>): (r: Command)
    ensures r.Unknown? ==> r.line == t
  {
    if t == [] then Empty
    else if t == "help" then Help
    else if t == "clear" then Clear
    else if "echo " <= t then Echo(t[5..])
    else if t == "ls" then Ls
    else if "cat " <= t then Cat(Arg(t))
    else if "touch " <= t then Touch(Arg(t))
    else if "rm " <= t then Rm(Arg(t))
    else if t == "mem" then Mem
    else if t == "sys" then Sys
    else if t == "eren" then Eren
    else Unknown(t)
  }

  /** One test of shell_execute: strcmp against a whole word, or strncmp
      against a prefix. */
  datatype Test = Is(word: seq<char>) | Starts(prefix: seq<char>)

  /** The ten tests of shell_execute, in its order. */
  const TESTS: seq<Test> := [Is("help"), Is("clear"), Starts("echo "), Is("ls"), Starts("cat "),
                             Starts("touch "), Starts("rm "), Is("mem"), Is("sys"), Is("eren")]

  function Pattern(test: Test): seq<char> {
    match test
    case Is(w) => w
    case Starts(p) => p
  }

  predicate Passes(t: seq<char>, test: Test) {
    match test
    case Is(w) => t == w
    case Starts(p) => p <= t
  }

  /** What a line that passes test i asks for, whatever the other tests
      say. */
  function Selected(i: nat, t: seq<char>): (r: Command)
    requires i < |TESTS| && Passes(t, TESTS[i])
  {
    if i == 0 then Help else if i == 1 then Clear else if i == 2 then Echo(t[5..])
    else if i == 3 then Ls else if i == 4 then Cat(Arg(t)) else if i == 5 then Touch(Arg(t))
    else if i == 6 then Rm(Arg(t)) else if i == 7 then Mem else if i == 8 then Sys else Eren
  }

  /** A line that passes a test starts with the test's first two
      characters. */
  lemma PassesSignature(t: seq<char>, test: Test)
    requires 2 <= |Pattern(test)|
    ensures Passes(t, test) ==> 2 <= |t| && t[0] == Pattern(test)[0] && t[1] == Pattern(test)[1]
  {
  }

  /** The test whose word or prefix starts with c0 and c1. */
  function TestFor(c0: char, c1: char): Test {
    if c0 == 'h' then Is("help")
    else if c0 == 'c' then (if c1 == 'l' then Is("clear") else Starts("cat "))
    else if c0 == 'e' then (if c1 == 'c' then Starts("echo ") else Is("eren"))
    else if c0 == 'l' then Is("ls")
    else if c0 == 't' then Starts("touch ")
    else if c0 == 'r' then Starts("rm ")
    else if c0 == 'm' then Is("mem")
    else Is("sys")
  }

  /** Each test is named by its first two characters. */
  lemma TestForPattern(a: Test)
    requires a in TESTS
    ensures 2 <= |Pattern(a)| && TestFor(Pattern(a)[0], Pattern(a)[1]) == a
  {
  }

  /** No line passes two different tests: every word and prefix starts
      with its own two characters. So the order of shell_execute's tests
      does not matter, and each command word selects exactly one
      command. */
  lemma TestsExclusive(t: seq<char>, a: Test, b: Test)
    requires a in TESTS && b in TESTS && Passes(t, a) && Passes(t, b)
    ensures a == b
  {
    TestForPattern(a);
    TestForPattern(b);
    PassesSignature(t, a);
    PassesSignature(t, b);
  }

  /** A line that passes test i is dispatched by that test. */
  lemma ClassifyByTest(t: seq<char>, i: nat)
    requires i < |TESTS| && Passes(t, TESTS[i])
    ensures Classify(t) == Selected(i, t)
  {
    PassesSignature(t, TESTS[i]);
  }

  /** "Unknown command" is printed exactly for a non-empty line that
      passes none of the tests. */
  lemma ClassifyUnknown(t: seq<char>)
    ensures Classify(t).Unknown? <==> t != [] && forall i :: 0 <= i < |TESTS| ==> !Passes(t, TESTS[i])
  {
    if t != [] && !Classify(t).Unknown? {
      var i: nat := if t == "help" then 0 else if t == "clear" then 1 else if "echo " <= t then 2
        else if t == "ls" then 3 else if "cat " <= t then 4 else if "touch " <= t then 5
        else if "rm " <= t then 6 else if t == "mem" then 7 else if t == "sys" then 8 else 9;
      assert Passes(t, TESTS[i]);
    }
  }

  /** cat takes everything after the spaces that follow the command as
      the file name, spaces included: "cat    x" opens "x" and "cat a b"
      opens "a b". */
  lemma ClassifyCat(sp: seq<char>, a: seq<char>)
    requires forall k :: 0 <= k < |sp| ==> sp[k] == ' '
    requires a == [] || a[0] != ' '
    ensures Classify("cat " + sp + a) == Cat(a)
  {
    var t := "cat " + sp + a;
    assert t[0] == 'c' && t[1] == 'a';
    assert t != "help" && !("help" <= t) by {
      assert t[0] != "help"[0];
    }
    assert t != "clear" && !("clear" <= t) by {
      assert t[1] != "clear"[1];
    }
    assert t != "echo " && !("echo " <= t) by {
      assert t[0] != "echo "[0];
    }
    assert t != "ls" && !("ls" <= t) by {
      assert t[0] != "ls"[0];
    }
    assert t == "cat" + ([' '] + sp) + a && t[..4] == "cat ";
    ArgOfSplit("cat", [' '] + sp, a);
  }

  /** touch takes its name the same way. */
  lemma ClassifyTouch(sp: seq<char>, a: seq<char>)
    requires forall k :: 0 <= k < |sp| ==> sp[k] == ' '
    requires a == [] || a[0] != ' '
    ensures Classify("touch " + sp + a) == Touch(a)
  {
    var t := "touch " + sp + a;
    assert t[0] == 't' && t[1] == 'o';
    assert t != "help" && !("help" <= t) by {
      assert t[0] != "help"[0];
    }
    assert t != "clear" && !("clear" <= t) by {
      assert t[0] != "clear"[0];
    }
    assert t != "echo " && !("echo " <= t) by {
      assert t[0] != "echo "[0];
    }
    assert t != "ls" && !("ls" <= t) by {
      assert t[0] != "ls"[0];
    }
    assert t != "cat " && !("cat " <= t) by {
      assert t[0] != "cat "[0];
    }
    assert t == "touch" + ([' '] + sp) + a && t[..6] == "touch ";
    ArgOfSplit("touch", [' '] + sp, a);
  }

  /** rm takes its name the same way. */
  lemma ClassifyRm(sp: seq<char>, a: seq<char>)
    requires forall k :: 0 <= k < |sp| ==> sp[k] == ' '
    requires a == [] || a[0] != ' '
    ensures Classify("rm " + sp + a) == Rm(a)
  {
    var t := "rm " + sp + a;
    assert t[0] == 'r' && t[1] == 'm';
    assert t != "help" && !("help" <= t) by {
      assert t[0] != "help"[0];
    }
    assert t != "clear" && !("clear" <= t) by {
      assert t[0] != "clear"[0];
    }
    assert t != "echo " && !("echo " <= t) by {
      assert t[0] != "echo "[0];
    }
    assert t != "ls" && !("ls" <= t) by {
      assert t[0] != "ls"[0];
    }
    assert t != "cat " && !("cat " <= t) by {
      assert t[0] != "cat "[0];
    }
    assert t != "touch " && !("touch " <= t) by {
      assert t[0] != "touch "[0];
    }
    assert t == "rm" + ([' '] + sp) + a && t[..3] == "rm ";
    ArgOfSplit("rm", [' '] + sp, a);
  }

  /** The filename buffers of shell_execute are 32 bytes, but get_arg
      stores the whole argument and its NUL: typing "cat " and then a name
      of 32 or more plain characters, the first not a space, makes get_arg
      write past the end of filename[32]. */
  lemma GetArgOverflowsFilename(name: seq<char>)
    requires FILENAME_SIZE <= |name| < CMD_BUFFER_SIZE - 4 && name[0] != ' '
    requires forall k :: 0 <= k < |name| ==> Plain(name[k])
    ensures var line := "cat " + name;
      && (forall k :: 0 <= k < |line| ==> !IsEnter(line[k]))
      && Typed(line) == line
      && Classify(line) == Cat(name)
      && |Arg(line)| + 1 > FILENAME_SIZE
  {
    var line := "cat " + name;
    forall k | 0 <= k < |line|
      ensures Plain(line[k])
    {
      if k < 4 {
        assert line[k] == "cat "[k];
      } else {
        assert line[k] == name[k - 4];
      }
    }
    TypedPlain(line);
    var none: seq<char> := [];
    assert "cat " + none == "cat ";
    ClassifyCat(none, name);
  }

  /** cmd_buffer. */
  class CommandLine {
    const cmd: array<char>

    ghost predicate Valid()
      reads this
    {
      cmd.Length == CMD_BUFFER_SIZE
    }

    constructor ()
      ensures Valid() && fresh(cmd)
    {
      cmd := new char[CMD_BUFFER_SIZE](_ => '\0');
    }

    /** shell_read_line on the keys keyboard_getchar hands out: the keys
        up to the first Enter are edited into the line, which is stored
        NUL-terminated; the result is how many keys were consumed. */
    method ReadLine(keys: seq<char>) returns (used: nat)
      requires Valid() && exists k :: 0 <= k < |keys| && IsEnter(keys[k])
      modifies cmd
      ensures used == FirstEnter(keys) + 1
      ensures var line := Typed(keys[..FirstEnter(keys)]);
        '\0' in cmd[..] && Text(cmd[..]) == line
    {
      var e := FirstEnter(keys);
      var pos := 0;
      var k := 0;
      while !IsEnter(keys[k])
        invariant k <= e && pos < CMD_BUFFER_SIZE
        invariant Typed(keys[..k]) == cmd[..pos]
        decreases e - k
      {
        var c := keys[k];
        assert keys[..k + 1][..k] == keys[..k];
        if c == '\0' {
        } else if c == BACKSPACE || c == DEL {
          if pos > 0 {
            pos := pos - 1;
          }
        } else if pos < CMD_BUFFER_SIZE - 1 {
          cmd[pos] := c;
          pos := pos + 1;
        }
        k := k + 1;
      }
      cmd[pos] := '\0';
      assert cmd[..][..pos] == cmd[..pos];
      TextAt(cmd[..], pos);
      used := k + 1;
    }

    /** shell_execute's dispatch over the line in cmd_buffer, with the
        filename buffers large enough for any argument get_arg can find
        there. */
    method Execute() returns (c: Command)
      requires Valid() && '\0' in cmd[..] && Narrow(cmd[..])
      ensures c == Classify(Text(cmd[..]))
    {
      var line := cmd[..];
      ghost var t := Text(line);
      var n := StrLen(line);
      if n == 0 {
        return Empty;
      }
      ShellLiterals();
      var yes := Matches(line, "help");
      if yes {
        return Help;
      }
      yes := Matches(line, "clear");
      if yes {
        return Clear;
      }
      yes := StartsWith(line, "echo ");
      if yes {
        assert Text(line[5..]) == t[5..] by {
          TextAt(line[5..], |t| - 5);
          assert line[5..][..|t| - 5] == t[5..];
        }
        return Echo(Text(line[5..]));
      }
      yes := Matches(line, "ls");
      if yes {
        return Ls;
      }
      yes := StartsWith(line, "cat ");
      if yes {
        var name := FileName(line);
        return Cat(name);
      }
      yes := StartsWith(line, "touch ");
      if yes {
        var name := FileName(line);
        return Touch(name);
      }
      yes := StartsWith(line, "rm ");
      if yes {
        var name := FileName(line);
        return Rm(name);
      }
      yes := Matches(line, "mem");
      if yes {
        return Mem;
      }
      yes := Matches(line, "sys");
      if yes {
        return Sys;
      }
      yes := Matches(line, "eren");
      if yes {
        return Eren;
      }
      return Unknown(Text(line));
    }

    /** `char filename[...]; get_arg(cmd_buffer, filename);` with a buffer
        of CMD_BUFFER_SIZE characters, and the name it then holds. */
    static method FileName(line: seq<char>) returns (name: seq<char>)
      requires '\0' in line && |line| == CMD_BUFFER_SIZE
      ensures name == Arg(Text(line))
    {
      var filename := new char[CMD_BUFFER_SIZE](_ => '\0');
      GetArg(line, filename);
      name := filename[..|Arg(Text(line))|];
    }
  }
}
