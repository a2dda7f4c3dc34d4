/**
 * What the build prints about the compilation (lines 152-175) and the
 * tailwind commands it issues at the end (lines 250-259). The diagnostics
 * themselves, their positions and their flattened messages come from the
 * TypeScript compiler and are inputs here.
 */
module Reporting {
  import opened Wrappers
  import opened Strings

  /** The decimal digit of `d`. */
  function DigitChar(d: nat): (c: char)
    requires d < 10
    ensures '0' <= c <= '9'
  {
    ['0', '1', '2', '3', '4', '5', '6', '7', '8', '9'][d]
  }

  /** The value of a decimal digit. */
  function DigitValue(c: char): (d: nat)
    requires '0' <= c <= '9'
    ensures d < 10
  {
    (c as int - '0' as int) as nat
  }

  /** A string of decimal digits. */
  predicate AllDigits(s: string) {
    forall i :: 0 <= i < |s| ==> '0' <= s[i] <= '9'
  }

  /** A number as JavaScript interpolates it into a template string. */
  function NatToString(n: nat): (s: string)
    ensures |s| > 0 && AllDigits(s)
  {
    if n < 10 then [DigitChar(n)] else NatToString(n / 10) + [DigitChar(n % 10)]
  }

  /** The number a string of decimal digits spells. */
  function ParseDigits(s: string): nat
    requires AllDigits(s)
  {
    if s == [] then 0 else ParseDigits(s[..|s| - 1]) * 10 + DigitValue(s[|s| - 1])
  }

  /** Each digit reads back as itself. */
  lemma DigitRoundTrip(d: nat)
    requires d < 10
    ensures DigitValue(DigitChar(d)) == d
  {
  }

  /** Printing a number and reading it back gives the number. */
  lemma {:induction false} NatToStringRoundTrip(n: nat)
    ensures ParseDigits(NatToString(n)) == n
  {
    if n < 10 {
      DigitRoundTrip(n);
      assert [DigitChar(n)][..0] == [];
    } else {
      var s := NatToString(n / 10) + [DigitChar(n % 10)];
      assert s[..|s| - 1] == NatToString(n / 10);
      NatToStringRoundTrip(n / 10);
      DigitRoundTrip(n % 10);
    }
  }

  /** Different numbers print differently. */
  lemma NatToStringInjective(m: nat, n: nat)
    requires NatToString(m) == NatToString(n)
    ensures m == n
  {
    NatToStringRoundTrip(m);
    NatToStringRoundTrip(n);
  }

  /**
   * One diagnostic of the compilation: the name of its source file when it
   * has one, its start offset when it has one, the zero-based line and
   * column the compiler maps that offset to, and its flattened message.
   */
  datatype Diagnostic = Diagnostic(file: Option<string>, start: Option<nat>, line: nat, character: nat, message: string)

  /** `diagnostic.file && diagnostic.start`: a start offset of 0 is falsy. */
  predicate Located(d: Diagnostic) {
    d.file.Some? && d.start.Some? && d.start.value != 0
  }

  /**
   * Lines 153-168: `file (line,column): message` with one-based line and
   * column for a located diagnostic, the bare message otherwise.
   */
  function DiagnosticLine(d: Diagnostic): (r: string)
    ensures EndsWith(r, d.message)
    ensures !Located(d) ==> r == d.message
    ensures Located(d) ==> StartsWith(r, d.file.value + " (") && EndsWith(r, "): " + d.message)
  {
    if Located(d) then
      var r := d.file.value + " (" + NatToString(d.line + 1) + "," + NatToString(d.character + 1) + "): " + d.message;
      assert r == (d.file.value + " (") + (NatToString(d.line + 1) + "," + NatToString(d.character + 1)) + ("): " + d.message);
      r
    else d.message
  }

  /**
   * A located diagnostic's line spells its one-based line and column
   * between the parentheses, so both can be read back from it.
   */
  lemma DiagnosticLineParts(d: Diagnostic)
    requires Located(d)
    ensures var l := NatToString(d.line + 1);
      var c := NatToString(d.character + 1);
      DiagnosticLine(d) == d.file.value + " (" + l + "," + c + "): " + d.message
      && ParseDigits(l) == d.line + 1 && ParseDigits(c) == d.character + 1
  {
    NatToStringRoundTrip(d.line + 1);
    NatToStringRoundTrip(d.character + 1);
  }

  /** Lines 171-175. */
  function SummaryLine(emitSkipped: bool): (r: string)
    ensures r == "The compilation was unsuccessful." <==> emitSkipped
    ensures !emitSkipped ==> r == "The compilation was successful."
  {
    if emitSkipped then "The compilation was unsuccessful." else "The compilation was successful."
  }

  /** Lines 149-175: every diagnostic in order, then the summary. */
  function CompilationLog(diagnostics: seq<Diagnostic>, emitSkipped: bool): (lines: seq<string>)
    ensures |lines| == |diagnostics| + 1
    ensures forall i :: 0 <= i < |diagnostics| ==> lines[i] == DiagnosticLine(diagnostics[i])
    ensures lines[|diagnostics|] == SummaryLine(emitSkipped)
  {
    if diagnostics == [] then [SummaryLine(emitSkipped)]
    else [DiagnosticLine(diagnostics[0])] + CompilationLog(diagnostics[1..], emitSkipped)
  }

  /**
   * Lines 250-259: with tailwind enabled, the build runs tailwind twice,
   * writing `styles.css` and then the minified `styles.min.css` in the
   * output directory; otherwise it runs nothing.
   */
  function TailwindCommands(tailwind: bool, distDir: string): (commands: seq<seq<string>>)
    ensures tailwind <==> commands != []
    ensures tailwind ==>
      && |commands| == 2
      && commands[0] == ["npx", "tailwindcss", "-o", distDir + "/styles.css", "build"]
      && commands[1] == commands[0][..3] + [distDir + "/styles.min.css", "build", "--minify"]
  {
    if tailwind then
      [["npx", "tailwindcss", "-o", distDir + "/styles.css", "build"],
       ["npx", "tailwindcss", "-o", distDir + "/styles.min.css", "build", "--minify"]]
    else []
  }
}
