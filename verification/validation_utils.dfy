/** `ValidationUtils` of bot/utils.py: length validation and control-character removal. */
module ValidationUtils {
  import opened Numbers

  /** Default `max_length` of `validate_user_input`. */
  const DefaultMaxLength: int := 100

  /** Most characters `sanitize_input` keeps. */
  const SanitizedLimit: nat := 1000

  /** `(is_valid, error_message)`. */
  datatype InputCheck = InputCheck(valid: bool, message: string)

  /**
    `validate_user_input`: an input is accepted exactly when it is
    non-empty and no longer than `maxLength`; emptiness is reported first.
   */
  function ValidateUserInput(text: string, maxLength: int): (r: InputCheck)
    ensures r.valid <==> 0 < |text| <= maxLength
    ensures r.valid ==> r.message == ""
    ensures !r.valid ==> r.message != ""
    ensures |text| == 0 ==> r.message == "Input cannot be empty"
    ensures |text| > 0 && |text| > maxLength ==>
      r.message == "Input too long (max " + IntText(maxLength) + " characters)"
  {
    if |text| == 0 then InputCheck(false, "Input cannot be empty")
    else if |text| > maxLength then
      InputCheck(false, "Input too long (max " + IntText(maxLength) + " characters)")
    else InputCheck(true, "")
  }

  /** A character `sanitize_input` keeps: not a control character, or a line break or tab. */
  predicate Kept(c: char)
  {
    c as int >= 32 || c == '\n' || c == '\r' || c == '\t'
  }

  /** The generator of `sanitize_input`: the kept characters, in order. */
  function KeepAllowed(text: string): (r: string)
    ensures |r| <= |text|
    ensures forall i :: 0 <= i < |r| ==> Kept(r[i])
    ensures (forall i :: 0 <= i < |text| ==> Kept(text[i])) ==> r == text
  {
    if |text| == 0 then ""
    else
      var rest := KeepAllowed(text[1..]);
      if Kept(text[0]) then
        assert text == [text[0]] + text[1..];
        [text[0]] + rest
      else rest
  }

  /** A single character is kept exactly when `Kept` allows it. */
  lemma KeepAllowedChar(c: char)
    ensures KeepAllowed([c]) == if Kept(c) then [c] else []
  {
    assert [c][1..] == [];
  }

  /**
    Filtering distributes over concatenation. With `KeepAllowedChar` this
    says that every kept character of the input survives, in order, and
    nothing else does.
   */
  lemma {:induction false} KeepAllowedConcat(a: string, b: string)
    ensures KeepAllowed(a + b) == KeepAllowed(a) + KeepAllowed(b)
    decreases |a|
  {
    if |a| == 0 {
      assert a + b == b;
    } else {
      assert (a + b)[0] == a[0];
      assert (a + b)[1..] == a[1..] + b;
      KeepAllowedConcat(a[1..], b);
    }
  }

  /**
    `sanitize_input`: the kept characters, cut to the first 1000. Clean
    text within the limit comes back unchanged.
   */
  function SanitizeInput(text: string): (r: string)
    ensures |r| <= SanitizedLimit
    ensures forall i :: 0 <= i < |r| ==> Kept(r[i])
    ensures r <= KeepAllowed(text)
    ensures |r| == if |KeepAllowed(text)| < SanitizedLimit then |KeepAllowed(text)| else SanitizedLimit
    ensures (forall i :: 0 <= i < |text| ==> Kept(text[i])) && |text| <= SanitizedLimit ==> r == text
  {
    var kept := KeepAllowed(text);
    if |kept| <= SanitizedLimit then kept else kept[..SanitizedLimit]
  }

  /**
    Sanitised input passes `validate_user_input` with its default limit
    exactly when between one and a hundred characters survive the filter.
   */
  lemma ValidateSanitized(text: string)
    ensures ValidateUserInput(SanitizeInput(text), DefaultMaxLength).valid <==>
      0 < |KeepAllowed(text)| <= DefaultMaxLength
  {
  }

  /** Sanitising twice is sanitising once. */
  lemma SanitizeIdempotent(text: string)
    ensures SanitizeInput(SanitizeInput(text)) == SanitizeInput(text)
  {
  }
}
