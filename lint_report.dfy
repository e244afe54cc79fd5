/** Values shared by the lint rules and the review record: an optional value and
    a lint report, the (rule code, line, message) triple a rule emits for one node. */
module LintReport {

  datatype Option<T> = None | Some(value: T)

  /** One violation found by a rule: the rule's code (its class name), the line of
      the offending node and the human-readable message. */
  datatype Report = Report(code: string, line: int, message: string)
}
