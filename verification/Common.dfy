/** What several parts of the model share. */
module Common {

  datatype Option<+T> = None | Some(value: T)

  // A line ending is CR, LF, or the two together.
  predicate LineEnd(c: char) {
    c == '\r' || c == '\n'
  }

  // cmark_isspace
  predicate Space(c: char) {
    c == ' ' || c == '\t' || LineEnd(c)
  }

  predicate Digit(c: char) {
    '0' <= c <= '9'
  }

  lemma Rejoin<T>(a: seq<T>, b: seq<T>, c: seq<T>)
    ensures a + (b + c) == (a + b) + c
    ensures b == [] ==> a + b == a
  {
  }
}
