/**
 * The crate's two error enums. They have the same single variant and the same
 * rendering; `Netv4Addr` parsing reports `Error`, `Netv6Addr` parsing reports
 * `NetAddrError`.
 */
module Errors {
  /** The text every error rendering starts with. */
  const PREFIX: string := "unable to parse address: "

  const SPLIT_FAILURE: string := "could not split provided input"

  /** The message a rendering carries after its fixed prefix. */
  function MessageOf(rendered: string): string
  {
    if |rendered| >= |PREFIX| then rendered[|PREFIX|..] else rendered
  }

  datatype Error = ParseError(text: string) {
    /** `Display for Error`. */
    function Display(): (r: string)
      ensures |r| == 25 + |text| && r[..25] == PREFIX
      ensures MessageOf(r) == text
    {
      PREFIX + text
    }
  }

  datatype NetAddrError = ParseError(text: string) {
    /** `Display for NetAddrError`. */
    function Display(): (r: string)
      ensures |r| == 25 + |text| && r[..25] == PREFIX
      ensures MessageOf(r) == text
    {
      PREFIX + text
    }
  }

  /** Distinct errors render differently. */
  lemma ErrorDisplayInjective(a: Error, b: Error)
    ensures a.Display() == b.Display() <==> a == b
  {
    if a.Display() == b.Display() {
      assert MessageOf(a.Display()) == MessageOf(b.Display());
    }
  }

  lemma NetAddrErrorDisplayInjective(a: NetAddrError, b: NetAddrError)
    ensures a.Display() == b.Display() <==> a == b
  {
    if a.Display() == b.Display() {
      assert MessageOf(a.Display()) == MessageOf(b.Display());
    }
  }

  /** The two enums render the same message identically. */
  lemma DisplaysAgree(text: string)
    ensures Error.ParseError(text).Display() == NetAddrError.ParseError(text).Display()
  {
  }

  lemma DisplayExamples()
    ensures Error.ParseError("INNER_TEXT").Display() == "unable to parse address: INNER_TEXT"
    ensures NetAddrError.ParseError("INNER_TEXT").Display() == "unable to parse address: INNER_TEXT"
  {
  }
}
