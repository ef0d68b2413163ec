/**
 The e-mail address shown beside every chip and every suggestion: the name,
 lowercased, with each whitespace character replaced by an underscore,
 followed by a fixed domain.
 */
module Display {
  import opened Text

  const EmailDomain: string := "@email.com"

  /** `value.toLowerCase().replace(/\s/g, '_') + '@email.com'`. */
  function EmailLabel(value: string): (r: string)
    ensures |r| == |value| + 10
    ensures r[|value|..] == EmailDomain
    ensures forall i :: 0 <= i < |value| ==> r[i] == if IsWhitespace(value[i]) then '_' else LowerChar(value[i])
    ensures forall i :: 0 <= i < |value| ==> !IsWhitespace(r[i]) && !IsUpper(r[i])
  {
    ReplaceWhitespace(Lower(value)) + EmailDomain
  }

  /** The part of a label before the domain. */
  function LocalPart(address: string): (r: string)
    requires |address| >= |EmailDomain|
    ensures |r| + |EmailDomain| == |address|
    ensures r <= address
  {
    address[..|address| - |EmailDomain|]
  }

  /** Two names that differ only in the case of ASCII letters get the same label. */
  lemma EmailLabelIgnoresCase(value: string)
    ensures EmailLabel(Lower(value)) == EmailLabel(value)
  {
    LowerIdempotent(value);
  }

  /** The local part is already normal: deriving a label from it again reproduces it. */
  lemma LocalPartIsNormal(value: string)
    ensures ReplaceWhitespace(Lower(LocalPart(EmailLabel(value)))) == LocalPart(EmailLabel(value))
    ensures EmailLabel(LocalPart(EmailLabel(value))) == EmailLabel(value)
  {
    var l := LocalPart(EmailLabel(value));
    assert |l| == |value|;
    assert forall i :: 0 <= i < |l| ==> ReplaceWhitespace(Lower(l))[i] == l[i];
  }
}
