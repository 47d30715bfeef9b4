/**
 * The errors the persistence client throws, and the test the handlers apply
 * in their `catch` blocks to tell "no such record" apart from every other
 * failure.
 */
module PrismaErrors {
  import opened Wrappers

  /** What the handlers read of a thrown error: `error.code` and
      `error.message`, either of which may be `undefined` (`None`). */
  datatype DbError = DbError(code: Option<string>, message: Option<string>)

  /** Prisma's error code for an operation on a record that does not exist. */
  const RecordNotFoundCode: string := "P2025"

  /** The text the handlers look for, in any letter case, inside the message. */
  const NotFoundPattern: string := "No record was found"

  /** The error a delete or an update of a missing id raises. Only its code is
      relied on; the message stands for the client's own wording. */
  function MissingRecord(operation: string): (e: DbError)
    ensures e.code == Some(RecordNotFoundCode)
  {
    DbError(Some(RecordNotFoundCode), Some("Record to " + operation + " does not exist."))
  }

  /** The letter-case canonical form a case-insensitive regular expression
      compares: ASCII letters are upper-cased, and no other character is
      mapped (a non-ASCII character whose upper case is ASCII keeps its own
      code point, so ASCII folding is the whole story for this pattern). */
  function Canonical(c: char): (u: char)
    ensures 'a' <= c <= 'z' ==> u as int == c as int - 32
    ensures !('a' <= c <= 'z') ==> u == c
  {
    if 'a' <= c <= 'z' then (c as int - 32) as char else c
  }

  /** `pattern` occurs in `text` at position `i`, ignoring letter case. */
  predicate MatchesAt(text: string, pattern: string, i: int)
  {
    0 <= i && i + |pattern| <= |text|
    && forall j :: 0 <= j < |pattern| ==> Canonical(text[i + j]) == Canonical(pattern[j])
  }

  /** Matches in `text[1..]` are the matches in `text` one position later. */
  lemma MatchesShift(text: string, pattern: string)
    requires text != []
    ensures forall i :: 0 <= i ==> (MatchesAt(text[1..], pattern, i) <==> MatchesAt(text, pattern, i + 1))
  {
    forall i | MatchesAt(text[1..], pattern, i)
      ensures MatchesAt(text, pattern, i + 1)
    {
      forall j | 0 <= j < |pattern|
        ensures Canonical(text[i + 1 + j]) == Canonical(pattern[j])
      {
        assert text[i + 1 + j] == text[1..][i + j];
      }
    }
    forall i | 0 <= i && MatchesAt(text, pattern, i + 1)
      ensures MatchesAt(text[1..], pattern, i)
    {
      forall j | 0 <= j < |pattern|
        ensures Canonical(text[1..][i + j]) == Canonical(pattern[j])
      {
        assert text[1..][i + j] == text[i + 1 + j];
      }
    }
  }

  /** The scan `/pattern/i.test(text)` performs, trying each start position in
      turn: it succeeds exactly when the pattern occurs somewhere in the text,
      ignoring letter case. */
  function ContainsIgnoringCase(text: string, pattern: string): (found: bool)
    ensures found <==> exists i :: MatchesAt(text, pattern, i)
    decreases |text|
  {
    if |text| < |pattern| then
      assert forall i :: !MatchesAt(text, pattern, i);
      false
    else if MatchesAt(text, pattern, 0) then true
    else
      MatchesShift(text, pattern);
      assert forall i :: MatchesAt(text, pattern, i) ==> i > 0;
      assert forall i :: MatchesAt(text, pattern, i) ==> MatchesAt(text[1..], pattern, i - 1);
      ContainsIgnoringCase(text[1..], pattern)
  }

  /** `String(error.message || '')`. */
  function MessageText(e: DbError): string
  {
    if e.message.Some? then e.message.value else ""
  }

  /** The handlers' not-found test: the code is P2025, or the message contains
      "No record was found" in any letter case. */
  predicate IsNotFound(e: DbError)
    ensures IsNotFound(e) <==>
      e.code == Some(RecordNotFoundCode) || exists i :: MatchesAt(MessageText(e), NotFoundPattern, i)
  {
    e.code == Some(RecordNotFoundCode) || ContainsIgnoringCase(MessageText(e), NotFoundPattern)
  }

  /** A message matches whatever its letter case; an error with neither a
      code nor a message does not. */
  lemma IsNotFoundExamples()
    ensures IsNotFound(DbError(None, Some("no RECORD was FOUND for a delete")))
    ensures !IsNotFound(DbError(None, None))
  {
    assert MatchesAt("no RECORD was FOUND for a delete", NotFoundPattern, 0);
  }
}
