/** One entry of a findings file: line and column from 0, column -1 when there is none. */
module Findings {
  datatype Entry = Entry(path: string, line: int, col: int, message: string, code: string, severity: string)
}
