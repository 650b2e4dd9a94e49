/** The two `Option` helpers of the error-handling lecture notes. */
module ErrorHandling {
  import opened Common

  const LuckyMessage: string := "I'm feeling lucky!"
  const ExtraSuffix: string := " Are you?"
  const NotLucky: string := "Not lucky :("

  /** `Some` with the lucky message exactly when the input exceeds 10. */
  function FeelingLucky(input: u32): (r: Option<string>)
    ensures r.Some? <==> input > 10
    ensures r.Some? ==> r.value == LuckyMessage
  {
    if input > 10 then Some(LuckyMessage) else None
  }

  /** Propagates `None` with `?`; otherwise appends " Are you?" to the lucky message. */
  function FeelingExtraLucky(input: u32): (r: Option<string>)
    ensures r.None? <==> FeelingLucky(input).None?
    ensures r.Some? ==> r.value == FeelingLucky(input).value + ExtraSuffix
  {
    var msg :- FeelingLucky(input);
    Some(msg + ExtraSuffix)
  }

  /** The demonstration in `main`: 20 is lucky, 5 is not and falls back to the default. */
  lemma MainScenarios()
    ensures FeelingLucky(20) == Some("I'm feeling lucky!")
    ensures FeelingLucky(5).None?
    ensures FeelingLucky(5).UnwrapOr(NotLucky) == "Not lucky :("
    ensures FeelingExtraLucky(20) == Some("I'm feeling lucky! Are you?")
    ensures FeelingExtraLucky(5).None?
  {
    assert LuckyMessage + ExtraSuffix == "I'm feeling lucky! Are you?";
  }
}
