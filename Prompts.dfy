/** The input checks that the seed searcher and the nearby-seed tool apply to
    what the user types. Each prompt reads one number with `scanf` and asks
    again until the check passes; the model keeps the check and leaves out
    the console and the re-prompting. */
module Prompts {
  import opened Generator

  datatype Option<T> = None | Some(value: T)

  /** What one `scanf("%u")` or `scanf("%x")` call leaves behind: either it
      matched a number and stored it in an `unsigned int`, or it matched
      nothing (`scanf` returned 0). */
  datatype ScanResult = Matched(value: Word) | NoMatch

  /** The TID and SID prompts: accepted when a number was read and it is
      below 0x10000 (`matches && (id < 0x10000)`); the accepted number is
      the ID. */
  function AcceptId(r: ScanResult): (id: Option<nat>)
    ensures id.Some? <==> r.Matched? && r.value < IdCount
    ensures id.Some? ==> id.value == r.value && id.value < IdCount
  {
    if r.Matched? && r.value < IdCount then Some(r.value) else None
  }

  /** The seed and PID prompts: any number read is accepted (`!matches`
      alone is checked). */
  function AcceptWord(r: ScanResult): (w: Option<Word>)
    ensures w.Some? <==> r.Matched?
    ensures w.Some? ==> w.value == r.value
  {
    if r.Matched? then Some(r.value) else None
  }

  /** The four functions of the nearby-seed tool, in menu order. */
  datatype Feature = DistanceToSeed | CustomTid | MakePidShiny | TidOffset

  /** The number that selects a feature in the menu. */
  function FeatureNumber(f: Feature): (n: nat)
    ensures 1 <= n <= 4
  {
    match f
    case DistanceToSeed => 1
    case CustomTid => 2
    case MakePidShiny => 3
    case TidOffset => 4
  }

  /** The menu prompt: accepted when a number was read, it is below 5 and it
      is not 0 (`matches && (choiceValue < 5) && (choiceValue != 0)`). */
  function ParseChoice(r: ScanResult): (f: Option<Feature>)
    ensures f.Some? <==> r.Matched? && 1 <= r.value <= 4
    ensures f.Some? ==> FeatureNumber(f.value) == r.value
  {
    if !r.Matched? || r.value == 0 || r.value >= 5 then None
    else if r.value == 1 then Some(DistanceToSeed)
    else if r.value == 2 then Some(CustomTid)
    else if r.value == 3 then Some(MakePidShiny)
    else Some(TidOffset)
  }

  /** Typing a feature's menu number selects that feature, and different
      features have different numbers. */
  lemma ChoiceRoundTrip(f: Feature, g: Feature)
    ensures ParseChoice(Matched(FeatureNumber(f))) == Some(f)
    ensures FeatureNumber(f) == FeatureNumber(g) ==> f == g
  {
  }
}
