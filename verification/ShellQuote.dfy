/**
 * The two levels of shell quoting in host deployment: the image reference
 * inside the script, and the script inside the remote command
 * (qarax/src/host_deployer.rs), read back by the quoting rules of sections
 * 2.2.1 to 2.2.3 of the POSIX Shell Command Language.
 */
module ShellQuote {
  import opened Validation

  /* ---- how a shell reads text ---- */

  datatype Mode = Plain | Single | Double | Escaped | DoubleEscaped

  /** A character of a word, and whether the shell would still interpret it (expansion, operator, pattern, comment). */
  datatype Mark = Mark(c: char, live: bool)

  type Word = seq<Mark>

  datatype Lexer = Lexer(mode: Mode, word: Word, open: bool, words: seq<Word>, commands: seq<seq<Word>>)

  const START := Lexer(Plain, [], false, [], [])

  /** Outside quotes only these characters are certain to mean themselves. */
  predicate Harmless(c: char) {
    'a' <= c <= 'z' || 'A' <= c <= 'Z' || '0' <= c <= '9' || c == '-' || c == '_' || c == '.' || c == '/' || c == ':'
  }

  predicate Blank(c: char) {
    c == ' ' || c == '\t' || c == '\n'
  }

  predicate Quoting(c: char) {
    c == '\'' || c == '"' || c == '\\'
  }

  function Next(mode: Mode, c: char): Mode {
    match mode
    case Plain => if c == '\'' then Single else if c == '"' then Double else if c == '\\' then Escaped else Plain
    case Single => if c == '\'' then Plain else Single
    case Double => if c == '"' then Plain else if c == '\\' then DoubleEscaped else Double
    case Escaped => Plain
    case DoubleEscaped => Double
  }

  /** What one character adds to the current word. */
  function Adds(mode: Mode, c: char): Word {
    match mode
    case Plain => if Quoting(c) || Blank(c) then [] else [Mark(c, !Harmless(c))]
    case Single => if c == '\'' then [] else [Mark(c, false)]
    case Double => if c == '"' || c == '\\' then [] else [Mark(c, c == '$' || c == '`')]
    case Escaped => if c == '\n' then [] else [Mark(c, false)]
    case DoubleEscaped =>
      if c == '\n' then []
      else if c == '$' || c == '`' || c == '"' || c == '\\' then [Mark(c, false)]
      else [Mark('\\', false), Mark(c, false)]
  }

  function Feed(l: Lexer, c: char): Lexer {
    if l.mode == Plain && Blank(c) then
      var words := if l.open then l.words + [l.word] else l.words;
      if c != '\n' then Lexer(Plain, [], false, words, l.commands)
      else Lexer(Plain, [], false, [], if words == [] then l.commands else l.commands + [words])
    else
      l.(mode := Next(l.mode, c), word := l.word + Adds(l.mode, c), open := true)
  }

  function Lex(l: Lexer, s: string): Lexer
    decreases |s|
  {
    if s == "" then l else Lex(Feed(l, s[0]), s[1..])
  }

  lemma {:induction false} LexConcat(l: Lexer, s: string, t: string)
    ensures Lex(l, s + t) == Lex(Lex(l, s), t)
    decreases |s|
  {
    if s == "" {
      assert s + t == t;
    } else {
      assert (s + t)[1..] == s[1..] + t;
      LexConcat(Feed(l, s[0]), s[1..], t);
    }
  }

  /** The word that stands for `s` itself, nothing in it left to interpret. */
  function Inert(s: string): Word {
    seq(|s|, i requires 0 <= i < |s| => Mark(s[i], false))
  }

  /* ---- quoting ---- */

  function Escape(s: string): string {
    if s == "" then "" else (if s[0] == '\'' then "'\"'\"'" else [s[0]]) + Escape(s[1..])
  }

  function Quote(s: string): string {
    "'" + Escape(s) + "'"
  }

  lemma LexSingleQuote(l: Lexer)
    requires l.mode == Single
    ensures Lex(l, "'\"'\"'") == l.(word := l.word + [Mark('\'', false)], open := true)
  {
    var l1 := Feed(l, '\'');
    var l2 := Feed(l1, '"');
    var l3 := Feed(l2, '\'');
    var l4 := Feed(l3, '"');
    var l5 := Feed(l4, '\'');
    assert Lex(l, "'\"'\"'") == Lex(l1, "\"'\"'") == Lex(l2, "'\"'") == Lex(l3, "\"'") == Lex(l4, "'") == l5 by {
      assert "'\"'\"'"[1..] == "\"'\"'" && "\"'\"'"[1..] == "'\"'" && "'\"'"[1..] == "\"'";
      assert "\"'"[1..] == "'" && "'"[1..] == "";
    }
  }

  lemma {:induction false} LexEscaped(l: Lexer, s: string)
    requires l.mode == Single && l.open
    ensures Lex(l, Escape(s)) == l.(word := l.word + Inert(s))
    decreases |s|
  {
    if s == "" {
      assert Inert(s) == [];
    } else {
      var first := if s[0] == '\'' then "'\"'\"'" else [s[0]];
      var l' := l.(word := l.word + [Mark(s[0], false)]);
      LexConcat(l, first, Escape(s[1..]));
      assert Lex(l, first) == l' by {
        if s[0] == '\'' {
          LexSingleQuote(l);
        } else {
          assert first[1..] == "";
        }
      }
      LexEscaped(l', s[1..]);
      assert l'.word + Inert(s[1..]) == l.word + Inert(s);
    }
  }

  /** Quoting round-trips in the middle of any word of any command: the shell sees exactly the text, all of it inert. */
  lemma LexQuoted(l: Lexer, s: string)
    requires l.mode == Plain
    ensures Lex(l, Quote(s)) == l.(word := l.word + Inert(s), open := true)
  {
    var inner := l.(mode := Single, open := true);
    LexConcat(l, "'" + Escape(s), "'");
    LexConcat(l, "'", Escape(s));
    assert "'"[1..] == "";
    assert l.word + [] == l.word;
    assert Lex(l, "'") == inner;
    LexEscaped(inner, s);
    assert l.word + Inert(s) + [] == l.word + Inert(s);
  }

  /** Read from the start, a quoted text is one word that ends outside quotes, and no command precedes it. */
  lemma QuoteRoundTrip(s: string)
    ensures Lex(START, Quote(s)) == Lexer(Plain, Inert(s), true, [], [])
  {
    LexQuoted(START, s);
    assert [] + Inert(s) == Inert(s);
  }

  lemma InertInjective(s: string, t: string)
    ensures Inert(s) == Inert(t) <==> s == t
  {
    if Inert(s) == Inert(t) {
      assert |s| == |Inert(s)| == |Inert(t)| == |t|;
      forall i | 0 <= i < |s| ensures s[i] == t[i] {
        assert Inert(s)[i] == Inert(t)[i];
      }
    }
  }

  /* ---- the commands ---- */

  /** Text of lower-case letters, hyphens and underscores only. */
  predicate Ordinary(s: string) {
    forall i :: 0 <= i < |s| ==> 'a' <= s[i] <= 'z' || s[i] == '-' || s[i] == '_'
  }

  lemma {:induction false} LexOrdinary(l: Lexer, s: string)
    requires l.mode == Plain && Ordinary(s)
    ensures Lex(l, s) == if s == "" then l else l.(word := l.word + Inert(s), open := true)
    decreases |s|
  {
    if s != "" {
      LexOrdinary(Feed(l, s[0]), s[1..]);
      assert l.word + [Mark(s[0], false)] + Inert(s[1..]) == l.word + Inert(s);
      if s[1..] == "" {
        assert Inert(s) == [Mark(s[0], false)];
      }
    }
  }

  /** Plain words, each followed by a space. */
  function Spaced(words: seq<string>): string {
    if words == [] then "" else Spaced(words[..|words| - 1]) + words[|words| - 1] + " "
  }

  function InertAll(words: seq<string>): seq<Word> {
    seq(|words|, i requires 0 <= i < |words| => Inert(words[i]))
  }

  predicate OrdinaryWords(words: seq<string>) {
    forall i :: 0 <= i < |words| ==> words[i] != "" && Ordinary(words[i])
  }

  lemma LexWordThenSpace(l: Lexer, s: string)
    requires l.mode == Plain && l.word == [] && Ordinary(s) && s != ""
    ensures Lex(l, s + " ") == Lexer(Plain, [], false, l.words + [Inert(s)], l.commands)
  {
    LexConcat(l, s, " ");
    LexOrdinary(l, s);
    assert [] + Inert(s) == Inert(s);
    assert " "[1..] == "";
  }

  lemma {:induction false} LexSpaced(commands: seq<seq<Word>>, words: seq<string>)
    requires OrdinaryWords(words)
    ensures Lex(Lexer(Plain, [], false, [], commands), Spaced(words)) ==
            Lexer(Plain, [], false, InertAll(words), commands)
  {
    if words != [] {
      var front, last := words[..|words| - 1], words[|words| - 1];
      LexSpaced(commands, front);
      assert Spaced(words) == Spaced(front) + (last + " ");
      LexConcat(Lexer(Plain, [], false, [], commands), Spaced(front), last + " ");
      LexWordThenSpace(Lexer(Plain, [], false, InertAll(front), commands), last);
      assert InertAll(front) + [Inert(last)] == InertAll(words);
    }
  }

  /** Plain words and then one quoted argument read back as those words and that argument. */
  lemma LexCommand(commands: seq<seq<Word>>, words: seq<string>, arg: string)
    requires OrdinaryWords(words)
    ensures Lex(Lexer(Plain, [], false, [], commands), Spaced(words) + Quote(arg)) ==
            Lexer(Plain, Inert(arg), true, InertAll(words), commands)
  {
    LexSpaced(commands, words);
    LexConcat(Lexer(Plain, [], false, [], commands), Spaced(words), Quote(arg));
    LexQuoted(Lexer(Plain, [], false, InertAll(words), commands), arg);
    assert [] + Inert(arg) == Inert(arg);
  }

  const BASH := ["bash", "-lc"]

  lemma BashWords()
    ensures OrdinaryWords(BASH) && Spaced(BASH) == "bash -lc "
  {
    assert BASH[..1] == ["bash"] && ["bash"][..0] == [];
    assert Spaced(["bash"]) == "bash ";
  }

  /** deploy_bootc_host's remote command. */
  function RemoteCommand(script: string): string {
    "bash -lc " + Quote(script)
  }

  /** The remote shell runs bash with exactly two arguments, the second being the script, and nothing else. */
  lemma RemoteCommandParses(script: string)
    ensures Lex(START, RemoteCommand(script)) == Lexer(Plain, Inert(script), true, [Inert("bash"), Inert("-lc")], [])
  {
    BashWords();
    LexCommand([], BASH, script);
    assert InertAll(BASH) == [Inert("bash"), Inert("-lc")];
  }

  /* ---- the script ---- */

  /** Text without any quoting character. */
  predicate Unquoted(s: string) {
    forall i :: 0 <= i < |s| ==> !Quoting(s[i])
  }

  /** Fixed script text, bare or inside double quotes. */
  datatype Piece = Bare(text: string) | Quoted(text: string)

  function Render(pieces: seq<Piece>): string {
    if pieces == [] then ""
    else
      var last := pieces[|pieces| - 1];
      Render(pieces[..|pieces| - 1]) + (if last.Bare? then last.text else "\"" + last.text + "\"")
  }

  const SETUP := "set -euo pipefail\n"
  const DEFINE := "run_privileged() {\nif [ "
  const AS_ROOT := " -eq 0 ]; then\n"
  const WITH_SUDO := "\nelse\nsudo -n "
  const END_FUNCTION := "\nfi\n}"

  const PRIVILEGED := [Bare(SETUP), Bare(DEFINE), Quoted("$(id -u)"), Bare(AS_ROOT), Quoted("$@"), Bare(WITH_SUDO),
                       Quoted("$@"), Bare(END_FUNCTION)]

  const QUIETLY := " >/dev/null 2>&1; then\n"
  const TEST_BOOTC := "if ! command -v bootc"
  const TEST_DNF := "if command -v dnf"
  const RUN_DNF := "run_privileged dnf install"
  const BOOTC := " -y bootc\n"
  const TEST_APT := "elif command -v apt-get"
  const UPDATE_APT := "run_privileged apt-get update\n"
  const RUN_APT := "run_privileged apt-get install"
  const NEITHER := "else\necho "
  const SORRY := "bootc is not installed and no " + "supported package manager was found"
  const END_INSTALL := " >&2\nexit 1\nfi\nfi"

  const INSTALL := [Bare(TEST_BOOTC), Bare(QUIETLY), Bare(TEST_DNF), Bare(QUIETLY), Bare(RUN_DNF), Bare(BOOTC),
                    Bare(TEST_APT), Bare(QUIETLY), Bare(UPDATE_APT), Bare(RUN_APT), Bare(BOOTC),
                    Bare(NEITHER), Quoted(SORRY), Bare(END_INSTALL)]

  lemma RenderLast(a: seq<Piece>, p: Piece) returns (text: string)
    ensures text == match p case Bare(t) => t case Quoted(t) => "\"" + t + "\""
    ensures Render(a + [p]) == Render(a) + text
  {
    assert (a + [p])[..|a|] == a;
    text := if p.Bare? then p.text else "\"" + p.text + "\"";
  }

  lemma Regroup(x: string, y: string, z: string)
    ensures x + y + z == x + (y + z)
  {
  }

  lemma {:induction false} RenderBoth(a: seq<Piece>, b: seq<Piece>)
    ensures Render(a + b) == Render(a) + Render(b)
    decreases |b|
  {
    if b == [] {
      assert a + b == a;
    } else {
      var front, last := b[..|b| - 1], b[|b| - 1];
      RenderBoth(a, front);
      assert front + [last] == b && a + front + [last] == a + b;
      var text := RenderLast(a + front, last);
      var _ := RenderLast(front, last);
      Regroup(Render(a), Render(front), text);
    }
  }

  /** Text is put together piece by piece, in order, with double quotes around the quoted ones. */
  lemma RenderPieces(a: seq<Piece>, p: Piece, b: seq<Piece>)
    ensures Render(a + [p] + b) == Render(a) + (match p case Bare(t) => t case Quoted(t) => "\"" + t + "\"") + Render(b)
  {
    RenderBoth(a + [p], b);
    var _ := RenderLast(a, p);
  }

  ghost predicate Fixed(pieces: seq<Piece>) {
    forall p :: p in pieces ==> Unquoted(p.text)
  }

  lemma SetupUnquoted()
    ensures Unquoted(SETUP) && Unquoted(DEFINE) && Unquoted(AS_ROOT) && Unquoted(WITH_SUDO) && Unquoted(END_FUNCTION)
    ensures Unquoted("$(id -u)") && Unquoted("$@")
  {
  }

  lemma PrivilegedFixed()
    ensures Fixed(PRIVILEGED)
  {
    SetupUnquoted();
  }

  lemma DnfUnquoted()
    ensures Unquoted(QUIETLY) && Unquoted(TEST_BOOTC) && Unquoted(TEST_DNF) && Unquoted(RUN_DNF) && Unquoted(BOOTC)
  {
  }

  lemma AptUnquoted()
    ensures Unquoted(TEST_APT) && Unquoted(UPDATE_APT) && Unquoted(RUN_APT) && Unquoted(NEITHER)
            && Unquoted(END_INSTALL)
  {
  }

  lemma SorryUnquoted()
    ensures Unquoted(SORRY)
  {
    assert Unquoted("bootc is not installed and no ");
    assert Unquoted("supported package manager was found");
  }

  lemma InstallFixed()
    ensures Fixed(INSTALL)
  {
    DnfUnquoted();
    AptUnquoted();
    SorryUnquoted();
  }

  lemma {:induction false} LexUnquoted(l: Lexer, s: string)
    requires Unquoted(s) && (l.mode == Plain || l.mode == Double)
    ensures Lex(l, s).mode == l.mode
    decreases |s|
  {
    if s != "" {
      LexUnquoted(Feed(l, s[0]), s[1..]);
    }
  }

  lemma LexDoubleQuoted(l: Lexer, s: string)
    requires l.mode == Plain && Unquoted(s)
    ensures Lex(l, "\"" + s + "\"").mode == Plain
  {
    LexConcat(l, "\"" + s, "\"");
    LexConcat(l, "\"", s);
    assert "\""[1..] == "";
    LexUnquoted(Lex(l, "\""), s);
  }

  lemma {:induction false} LexPieces(l: Lexer, pieces: seq<Piece>)
    requires l.mode == Plain && Fixed(pieces)
    ensures Lex(l, Render(pieces)).mode == Plain
  {
    if pieces != [] {
      var front, last := pieces[..|pieces| - 1], pieces[|pieces| - 1];
      LexPieces(l, front);
      LexConcat(l, Render(front), if last.Bare? then last.text else "\"" + last.text + "\"");
      if last.Bare? {
        LexUnquoted(Lex(l, Render(front)), last.text);
      } else {
        LexDoubleQuoted(Lex(l, Render(front)), last.text);
      }
    }
  }

  /** The state in which the shell waits for a command, the given ones being complete. */
  function Waiting(commands: seq<seq<Word>>): Lexer {
    Lexer(Plain, [], false, [], commands)
  }

  /** A newline outside quotes completes the command in progress. */
  lemma LexNewline(l: Lexer, s: string)
    requires Lex(l, s).mode == Plain
    ensures Lex(l, s + "\n") == Waiting(Lex(l, s + "\n").commands)
  {
    LexConcat(l, s, "\n");
    assert "\n"[1..] == "";
  }

  const SWITCH := ["run_privileged", "bootc", "switch"]
  const REBOOT := ["run_privileged", "systemctl", "reboot"]

  lemma ScriptWords()
    ensures OrdinaryWords(SWITCH) && OrdinaryWords(REBOOT)
  {
    assert Ordinary("run_privileged");
    assert Ordinary("bootc");
    assert Ordinary("switch");
    assert Ordinary("systemctl");
    assert Ordinary("reboot");
  }

  /** The line that switches to an image is one command whose last word is the image. */
  lemma LexSwitch(commands: seq<seq<Word>>, image: string)
    ensures Lex(Waiting(commands), Spaced(SWITCH) + Quote(image) + "\n") ==
            Waiting(commands + [InertAll(SWITCH) + [Inert(image)]])
  {
    ScriptWords();
    LexCommand(commands, SWITCH, image);
    LexConcat(Waiting(commands), Spaced(SWITCH) + Quote(image), "\n");
    assert "\n"[1..] == "";
  }

  /** Leading and trailing white space removed. */
  function Trim(s: string): (r: string)
    ensures r == "" || (!IsWhitespace(r[0]) && !IsWhitespace(r[|r| - 1]))
  {
    if s == "" then ""
    else if IsWhitespace(s[0]) then Trim(s[1..])
    else if IsWhitespace(s[|s| - 1]) then Trim(s[..|s| - 1])
    else s
  }

  predicate Blanks(s: string) {
    forall c :: c in s ==> IsWhitespace(c)
  }

  lemma BlanksTogether(a: string, b: string)
    requires Blanks(a) && Blanks(b)
    ensures Blanks(a + b)
  {
  }

  /** Trimming removes white space at both ends, and nothing else. */
  lemma {:induction false} TrimMeans(s: string) returns (a: string, b: string)
    ensures s == a + Trim(s) + b && Blanks(a) && Blanks(b)
    decreases |s|
  {
    a, b := "", "";
    if s == "" {
    } else if IsWhitespace(s[0]) {
      var c, d := TrimMeans(s[1..]);
      BlanksTogether([s[0]], c);
      calc {
        s;
        [s[0]] + s[1..];
        [s[0]] + (c + Trim(s[1..]) + d);
        ([s[0]] + c) + Trim(s) + d;
      }
      a, b := [s[0]] + c, d;
    } else if IsWhitespace(s[|s| - 1]) {
      var front, last := s[..|s| - 1], [s[|s| - 1]];
      var c, d := TrimMeans(front);
      BlanksTogether(d, last);
      calc {
        s;
        front + last;
        (c + Trim(front) + d) + last;
        c + Trim(s) + (d + last);
      }
      a, b := c, d + last;
    }
  }

  /** What the script runs before switching, whatever the image is. */
  function Preparation(install: bool): seq<seq<Word>> {
    Lex(START, Prepared(install)).commands
  }

  /** The fixed text a script starts with. */
  function Prepared(install: bool): string {
    Render(PRIVILEGED) + "\n" + if install then Render(INSTALL) + "\n" else ""
  }

  lemma LexPreparation(install: bool)
    ensures Lex(START, Prepared(install)) == Waiting(Preparation(install))
  {
    PrivilegedFixed();
    LexPieces(START, PRIVILEGED);
    LexNewline(START, Render(PRIVILEGED));
    var first := Lex(START, Render(PRIVILEGED) + "\n");
    if install {
      InstallFixed();
      LexPieces(first, INSTALL);
      LexNewline(first, Render(INSTALL));
      LexConcat(START, Render(PRIVILEGED) + "\n", Render(INSTALL) + "\n");
    } else {
      assert Render(PRIVILEGED) + "\n" + "" == Render(PRIVILEGED) + "\n";
    }
  }

  /** The shell after a script that prepares, switches to the trimmed image and perhaps reboots. */
  function Switches(image: string, install: bool, reboot: bool): Lexer {
    Waiting(Preparation(install) + [InertAll(SWITCH) + [Inert(Trim(image))]]
            + if reboot then [InertAll(REBOOT)] else [])
  }

  /**
   * build_bootc_script: whatever the image text, the script runs its fixed
   * preparation, then one bootc switch with the trimmed image as its only
   * argument, then at most the reboot.
   */
  method BuildScript(image: string, install: bool, reboot: bool) returns (script: string)
    ensures Lex(START, script) == Switches(image, install, reboot)
    ensures Prepared(install) + Spaced(SWITCH) <= script
  {
    script := Render(PRIVILEGED) + "\n";
    if install {
      script := script + (Render(INSTALL) + "\n");
    }
    ghost var before := script;
    assert before == Prepared(install);
    LexPreparation(install);
    script := script + (Spaced(SWITCH) + Quote(Trim(image)) + "\n");
    HeadStays(before, Spaced(SWITCH), Quote(Trim(image)), "\n");
    LexConcat(START, before, Spaced(SWITCH) + Quote(Trim(image)) + "\n");
    LexSwitch(Preparation(install), Trim(image));
    if reboot {
      LexConcat(START, script, Spaced(REBOOT[..2]) + "reboot\n");
      LexReboot(Preparation(install) + [InertAll(SWITCH) + [Inert(Trim(image))]]);
      script := script + (Spaced(REBOOT[..2]) + "reboot\n");
    }
  }

  lemma HeadStays(a: string, b: string, c: string, d: string)
    ensures a + b <= a + (b + c + d)
  {
  }

  lemma LexReboot(commands: seq<seq<Word>>)
    ensures Lex(Waiting(commands), Spaced(REBOOT[..2]) + "reboot\n") == Waiting(commands + [InertAll(REBOOT)])
  {
    var words := REBOOT[..2];
    ScriptWords();
    LexSpaced(commands, words);
    LexConcat(Waiting(commands), Spaced(words), "reboot\n");
    LexLastWord(Lexer(Plain, [], false, InertAll(words), commands), "reboot");
    assert "reboot\n" == "reboot" + "\n";
    assert InertAll(words) + [Inert("reboot")] == InertAll(REBOOT);
  }

  lemma LexLastWord(l: Lexer, s: string)
    requires l.mode == Plain && l.word == [] && Ordinary(s) && s != ""
    ensures Lex(l, s + "\n") == Waiting(l.commands + [l.words + [Inert(s)]])
  {
    LexConcat(l, s, "\n");
    LexOrdinary(l, s);
    assert [] + Inert(s) == Inert(s);
    assert "\n"[1..] == "";
  }

  /** Both levels: the remote shell hands bash a script, and that script switches to the trimmed image. */
  method DeployCommand(image: string, install: bool, reboot: bool) returns (command: string)
    ensures exists script ::
              && Lex(START, command) == Lexer(Plain, Inert(script), true, [Inert("bash"), Inert("-lc")], [])
              && Render(PRIVILEGED) + "\n" + (if install then Render(INSTALL) + "\n" else "") <= script
              && Lex(START, script) ==
                 Waiting(Preparation(install)
                         + [InertAll(["run_privileged", "bootc", "switch"]) + [Inert(Trim(image))]]
                         + if reboot then [InertAll(["run_privileged", "systemctl", "reboot"])] else [])
  {
    var script := BuildScript(image, install, reboot);
    command := RemoteCommand(script);
    RemoteCommandParses(script);
  }
}
