/** `ChallengeDay`: the day a solver belongs to, its `u8` code, the input
    file path built from it and its `Display` form.  `CARGO_MANIFEST_DIR` is
    the parameter `root`. */
module Challenges {
  import opened Wrappers
  import Text
  import opened InputFiles

  datatype ChallengeDay = Day1 | Day2 | Day3 | Day4 | Day5 | Day6 | Day7 | Day8 | Day9 | Day10 | Day11 | Day12 | Test

  /** `*self as u8`: the enum discriminant. */
  function Code(d: ChallengeDay): (c: nat)
    ensures c <= 12
    ensures c == 0 <==> d == Test
  {
    match d
    case Day1 => 1 case Day2 => 2 case Day3 => 3 case Day4 => 4
    case Day5 => 5 case Day6 => 6 case Day7 => 7 case Day8 => 8
    case Day9 => 9 case Day10 => 10 case Day11 => 11 case Day12 => 12
    case Test => 0
  }

  /** The twelve days have codes 1 to 12 in order. */
  lemma CodeOfDay(n: nat)
    requires 1 <= n <= 12
    ensures Code(DayNumbered(n)) == n
  {
  }

  /** The day whose code is `n`. */
  function DayNumbered(n: nat): (d: ChallengeDay)
    requires 1 <= n <= 12
  {
    [Day1, Day2, Day3, Day4, Day5, Day6, Day7, Day8, Day9, Day10, Day11, Day12][n - 1]
  }

  lemma CodeInjective(a: ChallengeDay, b: ChallengeDay)
    requires Code(a) == Code(b)
    ensures a == b
  {
  }

  const SLASH: Text.byte := '/' as int

  /** `get_question_file_path`:
      `{root}/../input_data/day{code}/{tag}.txt`. */
  function QuestionFilePath(root: Text.Bytes, d: ChallengeDay, q: Question): (path: Text.Bytes)
    ensures |path| > |root| && path[..|root|] == root
  {
    root + Text.Ascii("/../input_data/day") + FileName(d, q)
  }

  /** The part of the path after `day`: `{code}/{tag}.txt`. */
  function FileName(d: ChallengeDay, q: Question): Text.Bytes
  {
    Text.Decimal(Code(d)) + [SLASH] + (Tag(q) + Text.Ascii(".txt"))
  }

  /** `Display for ChallengeDay`: `Day {code}`. */
  function Display(d: ChallengeDay): (s: Text.Bytes)
    ensures |s| > 4 && s[..4] == Text.Ascii("Day ")
    ensures Text.ParseUnsigned(s[4..]) == Some(Code(d))
  {
    var s := Text.Ascii("Day ") + Text.Decimal(Code(d));
    assert s[4..] == Text.Decimal(Code(d));
    Text.DecimalParses(Code(d));
    s
  }

  /** The text before the first separator, and the text after it, are
      determined. */
  lemma SplitAtFirst(a1: Text.Bytes, b1: Text.Bytes, a2: Text.Bytes, b2: Text.Bytes, sep: Text.byte)
    requires a1 + [sep] + b1 == a2 + [sep] + b2 && sep !in a1 && sep !in a2
    ensures a1 == a2 && b1 == b2
  {
    var s := a1 + [sep] + b1;
    Text.FirstSeparator(a1, sep, b1);
    Text.FirstSeparator(a2, sep, b2);
    assert a1 == s[..|a1|] == a2;
    assert b1 == s[|a1| + 1..] == b2;
  }

  lemma DecimalHasNoSlash(n: nat)
    ensures SLASH !in Text.Decimal(n)
  {
    var ds := Text.Decimal(n);
    assert forall i :: 0 <= i < |ds| ==> Text.IsDigit(ds[i]);
  }

  /** Different file names come from different (day, question) pairs. */
  lemma FileNameInjective(d1: ChallengeDay, q1: Question, d2: ChallengeDay, q2: Question)
    requires FileName(d1, q1) == FileName(d2, q2)
    ensures d1 == d2 && q1 == q2
  {
    var ext := Text.Ascii(".txt");
    var t1, t2 := Tag(q1), Tag(q2);
    DecimalHasNoSlash(Code(d1));
    DecimalHasNoSlash(Code(d2));
    SplitAtFirst(Text.Decimal(Code(d1)), t1 + ext, Text.Decimal(Code(d2)), t2 + ext, SLASH);
    Text.DecimalInjective(Code(d1), Code(d2));
    CodeInjective(d1, d2);
    assert t1 == (t1 + ext)[..|t1|] && t2 == (t2 + ext)[..|t2|];
    TagInjective(q1, q2);
  }

  /** Distinct (day, question) pairs have distinct file paths. */
  lemma PathInjective(root: Text.Bytes, d1: ChallengeDay, q1: Question, d2: ChallengeDay, q2: Question)
    requires QuestionFilePath(root, d1, q1) == QuestionFilePath(root, d2, q2)
    ensures d1 == d2 && q1 == q2
  {
    var prefix := root + Text.Ascii("/../input_data/day");
    var p1, p2 := prefix + FileName(d1, q1), prefix + FileName(d2, q2);
    assert p1 == QuestionFilePath(root, d1, q1) && p2 == QuestionFilePath(root, d2, q2);
    assert FileName(d1, q1) == p1[|prefix|..] == p2[|prefix|..] == FileName(d2, q2);
    FileNameInjective(d1, q1, d2, q2);
  }

  lemma DisplayExample()
    ensures Display(Day12) == Text.Ascii("Day 12")
  {
    assert Text.Decimal(1) == [49];
    assert Text.Decimal(12) == [49, 50];
  }

  lemma PathExample()
    ensures QuestionFilePath([], Day7, Sample) == Text.Ascii("/../input_data/day7/sample.txt")
  {
    assert Text.Decimal(7) == [55];
  }
}
