/** `Question`: which input file of a day to load, and the file-name tag its
    `Display` impl renders. */
module InputFiles {
  import Text

  /** `ManyMatrix` exists only in test builds. */
  datatype Question = Question | Sample | ManyMatrix

  /** `Display for Question`. */
  function Tag(q: Question): (t: Text.Bytes)
    ensures |t| > 0 && forall i :: 0 <= i < |t| ==> TagByte(t[i])
  {
    match q
    case Question => Text.Ascii("input")
    case Sample => Text.Ascii("sample")
    case ManyMatrix => Text.Ascii("many_matrix")
  }

  /** Tags are lower-case letters and `_`: no `/` and no `.`. */
  predicate TagByte(b: Text.byte)
  {
    ('a' as int <= b <= 'z' as int) || b == '_' as int
  }

  /** Different questions have different tags. */
  lemma TagInjective(a: Question, b: Question)
    requires Tag(a) == Tag(b)
    ensures a == b
  {
    assert |Tag(Question)| == 5 && |Tag(Sample)| == 6 && |Tag(ManyMatrix)| == 11;
  }
}
