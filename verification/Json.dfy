/** Values that the services decode from JSON bodies and columns. */
module Json {
  datatype Json =
    | JNull
    | JBool(b: bool)
    | JNum(n: real)
    | JStr(s: string)
    | JArr(items: seq<Json>)
    | JObj(fields: map<string, Json>)

  /** How `fmt.Sprintf("%v", x)` prints a value. */
  type Printer = Json -> string

  /** Printing a string gives the string itself. */
  ghost predicate PrintsText(show: Printer) {
    forall s: string :: show(JStr(s)) == s
  }
}
