/** Notions shared by every module: how a departure of the code from its own
    intent is read, and an optional value for the source's NULL results. */
module Text {

  /** In a few places the code does not do what its own conditions and comments say
      it should. `AsWritten` follows the text; `AsMeant` follows the intent.
      A member that depends on such a place takes the reading as a value, or is stated
      as meant and has a twin for the text. */
  datatype Reading = AsWritten | AsMeant

  datatype Option<+T> = None | Some(value: T)

  ghost predicate NoRepeat<T>(s: seq<T>) {
    forall i, j :: 0 <= i < j < |s| ==> s[i] != s[j]
  }
}
