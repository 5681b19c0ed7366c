/** The text functions of the Go libraries, left abstract, and the laws used of them. */
module Texts {
  import opened Models

  /** strings.TrimSpace, strings.ToLower and strings.EqualFold. */
  datatype Text = Text(trim: string -> string, lower: string -> string, same: (string, string) -> bool) {
    /** Trimmed, then lower-cased: how emails, headers and product names are compared. */
    function Norm(s: string): string { lower(trim(s)) }
  }

  /** A calendar date as a day number, if the text is one. */
  type Calendar = string -> Option<int>

  const EMPLOYEE := "employee"

  ghost predicate TextLaws(t: Text) {
    && (forall s :: t.trim(t.trim(s)) == t.trim(s))
    && (forall s :: t.Norm(t.Norm(s)) == t.Norm(s))
    && (forall s :: t.same(s, s))
    && t.trim(WAREHOUSE) == WAREHOUSE && t.lower(WAREHOUSE) == WAREHOUSE
    && t.trim(EMPLOYEE) == EMPLOYEE && !t.same(EMPLOYEE, WAREHOUSE)
  }
}
