/** The text-formatting helpers of `src/helper.ts`: `pad`, `lpad`, `rpad`, `tpad`,
    `print_bool` and `print_description`. The padding string is one character
    (`PAD_CHAR` in the console's constants, taken to be a space here). */
module Padding {

  import opened Text

  /** The console's default padding character. */
  const PadChar: char := ' '

  function Max(a: int, b: int): int { if a < b then b else a }

  /** `pad(text, size, end, spaceChar)`. Padding is added only when `text` is shorter
      than `size`; `end == true` puts it BEFORE the text and `end == false` after it,
      which is the opposite of what the parameter's documentation says. */
  function Pad(text: string, size: int, end: bool, spaceChar: char): (r: string)
    ensures |r| == Max(|text|, size)
    ensures end ==> r[|r| - |text|..] == text
    ensures !end ==> r[..|text|] == text
    ensures end ==> forall i :: 0 <= i < |r| - |text| ==> r[i] == spaceChar
    ensures !end ==> forall i :: |text| <= i < |r| ==> r[i] == spaceChar
  {
    var padding := if |text| < size then Repeat(spaceChar, size - |text|) else "";
    if !end then text + padding else padding + text
  }

  /** `lpad`: the padding characters, then the text; `size` long when the text is shorter. */
  function LPad(text: string, size: int, paddingChar: char): (r: string)
    ensures |text| >= size ==> r == text
    ensures |text| < size ==> |r| == size
    ensures r == Repeat(paddingChar, |r| - |text|) + text
  {
    var r := Pad(text, size, true, paddingChar);
    assert r == r[..|r| - |text|] + r[|r| - |text|..];
    r
  }

  /** `rpad`: the text, then the padding characters; `size` long when the text is shorter. */
  function RPad(text: string, size: int, paddingChar: char): (r: string)
    ensures |text| >= size ==> r == text
    ensures |text| < size ==> |r| == size
    ensures r == text + Repeat(paddingChar, |r| - |text|)
  {
    var r := Pad(text, size, false, paddingChar);
    assert r == r[..|text|] + r[|text|..];
    r
  }

  /** `tpad`: exactly `size` padding characters in front of the text, whatever its length. */
  function TPad(text: string, size: nat, paddingChar: char): (r: string)
    ensures |r| == size + |text|
    ensures r[size..] == text
    ensures forall i :: 0 <= i < size ==> r[i] == paddingChar
  {
    Repeat(paddingChar, size) + text
  }

  /** `print_bool`: `"x"` for a truthy number, one space for zero. */
  function PrintBool(v: int): (r: string)
    ensures |r| == 1
    ensures r[0] == 'x' <==> v != 0
    ensures r[0] == 'x' || r[0] == ' '
  {
    if v != 0 then "x" else " "
  }

  /** The argument of `print_description`: one string, or a list of lines. */
  datatype Description = Single(text: string) | Lines(items: seq<string>)

  /** The `map` of `print_description`: the first line as it is, every other line
      prefixed by `padSize` padding characters. */
  function Indented(items: seq<string>, padSize: nat): (r: seq<string>)
    ensures |r| == |items|
  {
    seq(|items|, i requires 0 <= i < |items| =>
      if i == 0 then items[i] else TPad(items[i], padSize, PadChar))
  }

  /** `print_description`: a single string unchanged; a list joined by newlines with
      every line after the first indented, and a final newline when there are
      several lines. */
  function PrintDescription(description: Description, padSize: nat): (r: string)
    ensures description.Single? ==> r == description.text
  {
    match description
    case Single(text) => text
    case Lines(items) =>
      var res := Join(Indented(items, padSize), "\n");
      if |items| > 1 then res + "\n" else res
  }

  /** Reading the result of `print_description` back line by line: when no line holds
      a newline of its own, the output's lines are the given lines, the first one as
      it is and each later one indented by exactly `padSize` characters, followed by
      one empty line after the final newline when there were several lines. */
  lemma {:induction false} PrintDescriptionLines(items: seq<string>, padSize: nat)
    requires |items| >= 1
    requires forall i :: 0 <= i < |items| ==> '\n' !in items[i]
    ensures var lines := Split(PrintDescription(Lines(items), padSize), "\n");
      |lines| == (if |items| > 1 then |items| + 1 else 1) &&
      lines[0] == items[0] &&
      (forall i :: 1 <= i < |items| ==>
        |lines[i]| == padSize + |items[i]| &&
        lines[i][padSize..] == items[i] &&
        forall j :: 0 <= j < padSize ==> lines[i][j] == PadChar) &&
      (|items| > 1 ==> lines[|items|] == "")
  {
    var ind := Indented(items, padSize);
    forall i | 0 <= i < |ind| ensures '\n' !in ind[i] {
      if i > 0 {
        var t := ind[i];
        assert t == TPad(items[i], padSize, PadChar);
        forall j | 0 <= j < |t| ensures t[j] != '\n' {
          if j >= padSize {
            assert t[j] == t[padSize..][j - padSize];
          }
        }
      }
    }
    if |items| > 1 {
      JoinSnoc(ind, "", "\n");
      assert Join(ind, "\n") + "\n" == Join(ind + [""], "\n");
      var parts := ind + [""];
      forall i | 0 <= i < |parts| ensures '\n' !in parts[i] {
        if i < |ind| { assert parts[i] == ind[i]; }
      }
      SplitJoin(parts, "\n");
    } else {
      SplitJoin(ind, "\n");
    }
  }
}
