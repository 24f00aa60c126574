/** lib/validators_core.py: the `Finding` record shared by every validator. */
module Findings {
  import opened Options

  datatype Finding = Finding(
    severity: string, file: string, rule: string, message: string, fix: string,
    line: Option<int>, kind: string)
}
