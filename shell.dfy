/** The shell integration snippet: one line that puts the `bin` directory
    behind the `current` link at the front of the user's PATH. */
module Shell {
  import opened Results
  import opened Paths

  function LowerChar(c: char): char
  {
    if 'A' <= c <= 'Z' then (c as int + 32) as char else c
  }

  /** `str::to_lowercase` on the letters that can spell a supported shell. */
  function Lower(s: string): (r: string)
    ensures |r| == |s|
    ensures forall i :: 0 <= i < |s| ==> r[i] == LowerChar(s[i])
  {
    if s == [] then [] else [LowerChar(s[0])] + Lower(s[1..])
  }

  /** `<base>/current/bin`, reached through the active-version link. */
  function BinDir(base: string): string
  {
    Join(Join(base, "current"), "bin")
  }

  function FishLine(base: string): string
  {
    "set -gx PATH " + BinDir(base) + " $PATH"
  }

  function PosixLine(base: string): string
  {
    "export PATH=\"" + BinDir(base) + ":$PATH\""
  }

  predicate IsSupported(shell: string)
  {
    Lower(shell) == "fish" || Lower(shell) == "bash" || Lower(shell) == "zsh"
  }

  /** `get_shell_config`: the snippet for `shell`, matched without regard to case. */
  function ShellConfig(base: string, shell: string): (r: Result<string>)
    ensures r.Err? <==> !IsSupported(shell)
    ensures r.Err? ==> r.error == UnsupportedShell(shell)
    ensures r.Ok? ==> r.value == (if Lower(shell) == "fish" then FishLine(base) else PosixLine(base))
  {
    var name := Lower(shell);
    if name == "fish" then Ok(FishLine(base))
    else if name == "bash" || name == "zsh" then Ok(PosixLine(base))
    else Err(UnsupportedShell(shell))
  }

  lemma {:induction false} LowerIdempotent(s: string)
    ensures Lower(Lower(s)) == Lower(s)
  {
    if s != [] {
      LowerIdempotent(s[1..]);
      assert Lower(s)[1..] == Lower(s[1..]);
    }
  }

  /** Lowering the name first changes nothing: the match ignores case. */
  lemma ShellConfigIgnoresCase(base: string, shell: string)
    ensures ShellConfig(base, Lower(shell)).Ok? == ShellConfig(base, shell).Ok?
    ensures ShellConfig(base, shell).Ok? ==> ShellConfig(base, Lower(shell)) == ShellConfig(base, shell)
  {
    LowerIdempotent(shell);
  }

  /** bash and zsh share the POSIX form; fish has its own. */
  lemma BashAndZshAgree(base: string)
    ensures ShellConfig(base, "bash") == ShellConfig(base, "zsh") == Ok(PosixLine(base))
    ensures ShellConfig(base, "fish") == Ok(FishLine(base))
    ensures ShellConfig(base, "BaSh") == Ok(PosixLine(base))
  {
    assert Lower("bash") == "bash";
    assert Lower("zsh") == "zsh";
    assert Lower("fish") == "fish";
    assert Lower("BaSh") == "bash";
  }

  /** The directory put on PATH lies inside the `current` link, so it
      follows whichever version the link names. */
  lemma BinDirUnderCurrent(base: string)
    ensures Components(BinDir(base)) == Components(base) + ["current", "bin"]
    ensures FileName(BinDir(base)) == Some("bin")
  {
    ComponentsOfJoin(base, "current");
    ComponentsOfPlain("current");
    ComponentsOfJoin(Join(base, "current"), "bin");
    ComponentsOfPlain("bin");
    FileNameIsLast(BinDir(base), Components(base) + ["current"], "bin");
  }

  lemma ScenarioBinDir()
    ensures BinDir("/home/u/.suivm") == "/home/u/.suivm/current/bin"
  {
    assert Join("/home/u/.suivm", "current") == "/home/u/.suivm/current";
  }

  /** The fish snippet for base `/home/u/.suivm`. */
  lemma ScenarioFish()
    ensures ShellConfig("/home/u/.suivm", "fish") == Ok("set -gx PATH /home/u/.suivm/current/bin $PATH")
  {
    BashAndZshAgree("/home/u/.suivm");
    ScenarioBinDir();
    FishLiteral();
  }

  lemma FishLiteral()
    ensures "set -gx PATH " + "/home/u/.suivm/current/bin" + " $PATH" == "set -gx PATH /home/u/.suivm/current/bin $PATH"
  {
  }

  lemma PosixLiteral()
    ensures "export PATH=\"" + "/home/u/.suivm/current/bin" + ":$PATH\"" == "export PATH=\"/home/u/.suivm/current/bin:$PATH\""
  {
  }

  /** The bash snippet for base `/home/u/.suivm`. */
  lemma ScenarioBash()
    ensures ShellConfig("/home/u/.suivm", "bash") == Ok("export PATH=\"/home/u/.suivm/current/bin:$PATH\"")
  {
    BashAndZshAgree("/home/u/.suivm");
    ScenarioBinDir();
    PosixLiteral();
  }

  /** Every unsupported name is reported, whatever its case. */
  lemma UnsupportedRejected(base: string)
    ensures ShellConfig(base, "tcsh") == Err(UnsupportedShell("tcsh"))
    ensures ShellConfig(base, "") == Err(UnsupportedShell(""))
  {
    assert Lower("tcsh") == "tcsh";
  }
}
