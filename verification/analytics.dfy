/**
  The `cta_click` analytics record sent when a `.cta-button` or `.btn-primary`
  element is clicked: its trimmed text and whether it is a header or a body
  call to action.
 */
module Analytics {
  import opened Chars
  import opened ClassList

  const CtaButtonClass := "cta-button"
  const PrimaryButtonClass := "btn-primary"

  /** The listener is attached to elements matching `.cta-button, .btn-primary`. */
  predicate IsCtaElement(classes: Classes) {
    CtaButtonClass in classes || PrimaryButtonClass in classes
  }

  datatype CtaKind = Header | Body

  /** The value logged as `cta_type`. */
  function KindName(k: CtaKind): string {
    match k
    case Header => "header"
    case Body => "body"
  }

  /** A header CTA is one carrying `cta-button`, even if it is also a
      `btn-primary`; every other tracked element is a body CTA. */
  function ClassifyCta(classes: Classes): (k: CtaKind)
    requires IsCtaElement(classes)
    ensures k == Header <==> CtaButtonClass in classes
    ensures k == Body ==> PrimaryButtonClass in classes
  {
    if CtaButtonClass in classes then Header else Body
  }

  /** Number of whitespace characters at the start of `s`. */
  function LeadingSpaces(s: string): (n: nat)
    ensures n <= |s|
    ensures forall k :: 0 <= k < n ==> IsSpace(s[k])
    ensures n < |s| ==> !IsSpace(s[n])
  {
    if |s| == 0 || !IsSpace(s[0]) then 0 else 1 + LeadingSpaces(s[1..])
  }

  /** Number of whitespace characters at the end of `s`. */
  function TrailingSpaces(s: string): (n: nat)
    ensures n <= |s|
    ensures forall k :: |s| - n <= k < |s| ==> IsSpace(s[k])
    ensures n < |s| ==> !IsSpace(s[|s| - n - 1])
  {
    if |s| == 0 || !IsSpace(s[|s| - 1]) then 0 else 1 + TrailingSpaces(s[..|s| - 1])
  }

  /** `r` is the slice of `s` starting at `i`, and everything of `s` outside
      that slice is whitespace. */
  predicate SliceWithin(s: string, i: int, r: string) {
    && 0 <= i <= |s| - |r|
    && r == s[i..i + |r|]
    && (forall k :: 0 <= k < i ==> IsSpace(s[k]))
    && (forall k :: i + |r| <= k < |s| ==> IsSpace(s[k]))
  }

  /** `String.prototype.trim`: the middle of `s` between its leading and
      trailing whitespace. */
  function Trim(s: string): (r: string)
    ensures exists i :: SliceWithin(s, i, r)
    ensures |r| > 0 ==> !IsSpace(r[0]) && !IsSpace(r[|r| - 1])
  {
    var i := LeadingSpaces(s);
    var rest := s[i..];
    var r := rest[..|rest| - TrailingSpaces(rest)];
    assert forall k :: i + |r| <= k < |s| ==> s[k] == rest[k - i];
    assert SliceWithin(s, i, r);
    r
  }

  /** A trimmed string has nothing left to trim. */
  lemma TrimIdempotent(s: string)
    ensures Trim(Trim(s)) == Trim(s)
  {
    var r := Trim(s);
    if |r| > 0 {
      assert LeadingSpaces(r) == 0;
      assert TrailingSpaces(r) == 0;
    }
  }

  /** Trimming leaves nothing exactly when the text is all whitespace. */
  lemma TrimEmptyIffBlank(s: string)
    ensures Trim(s) == [] <==> forall k :: 0 <= k < |s| ==> IsSpace(s[k])
  {
    var r := Trim(s);
    var i :| SliceWithin(s, i, r);
    if |r| > 0 {
      assert r[0] == s[i] && !IsSpace(s[i]);
    }
  }

  /** The record logged for a `cta_click`. */
  datatype CtaClick = CtaClick(ctaText: string, ctaType: string)

  /** The click handler's record for an element with `classes` and text
      content `text`. */
  function TrackCtaClick(classes: Classes, text: string): (e: CtaClick)
    requires IsCtaElement(classes)
    ensures e.ctaType == "header" <==> CtaButtonClass in classes
    ensures e.ctaType == "body" <==> CtaButtonClass !in classes
    ensures e.ctaText == Trim(text)
    ensures exists i :: SliceWithin(text, i, e.ctaText)
    ensures |e.ctaText| > 0 ==> !IsSpace(e.ctaText[0]) && !IsSpace(e.ctaText[|e.ctaText| - 1])
    ensures |e.ctaText| <= |text|
  {
    CtaClick(Trim(text), KindName(ClassifyCta(classes)))
  }
}
