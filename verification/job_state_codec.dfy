/**
 * The state of one scheduled job and the text it is stored as in the
 * ConfigMap. The store's contracts use two facts about the wire format:
 * decoding an encoded state gives the state back, and some strings do not
 * decode. A small escaped format stands in for the JSON produced by the
 * state's model class. Like JSON, it is related to the stored text only
 * through decoding: nothing below assumes that a decoded text is the
 * encoding of its result.
 */
module JobStateCodec {
  import opened Wrappers

  /**
   * A job's state. `playbookId` is the identifier the store files the state
   * under; `details` stands for every other field of the state, carried as
   * opaque text.
   */
  datatype JobState = JobState(playbookId: string, details: string)

  /** Why a stored string is not a job state. */
  datatype DecodeError = MissingSeparator | BadEscape

  /** Ends the identifier; the details follow it verbatim. */
  const SEPARATOR: char := ':'
  /** Precedes a separator or an escape that belongs to the identifier. */
  const ESCAPE: char := '\\'

  predicate Special(c: char)
  {
    c == SEPARATOR || c == ESCAPE
  }

  /** The identifier with every separator and escape character escaped. */
  function Escape(id: string): string
  {
    if id == [] then []
    else (if Special(id[0]) then [ESCAPE, id[0]] else [id[0]]) + Escape(id[1..])
  }

  /** The text a job state is stored as. */
  function Serialize(s: JobState): string
  {
    Escape(s.playbookId) + [SEPARATOR] + s.details
  }

  /**
   * Reads an escaped identifier up to the first unescaped separator, and
   * returns it with the text after the separator.
   */
  function SplitId(text: string): (r: Result<(string, string), DecodeError>)
  {
    if text == [] then Failure(MissingSeparator)
    else if text[0] == SEPARATOR then Success(([], text[1..]))
    else if text[0] == ESCAPE then
      if |text| < 2 || !Special(text[1]) then Failure(BadEscape)
      else match SplitId(text[2..])
        case Failure(e) => Failure(e)
        case Success(p) => Success(([text[1]] + p.0, p.1))
    else match SplitId(text[1..])
      case Failure(e) => Failure(e)
      case Success(p) => Success(([text[0]] + p.0, p.1))
  }

  lemma {:induction false} SplitIdOfEscaped(id: string, rest: string)
    ensures SplitId(Escape(id) + [SEPARATOR] + rest) == Success((id, rest))
  {
    var text := Escape(id) + [SEPARATOR] + rest;
    if id == [] {
      assert text == [SEPARATOR] + rest;
    } else {
      SplitIdOfEscaped(id[1..], rest);
      var tail := Escape(id[1..]) + [SEPARATOR] + rest;
      if Special(id[0]) {
        assert text == [ESCAPE, id[0]] + tail;
        assert text[2..] == tail;
      } else {
        assert text == [id[0]] + tail;
        assert text[1..] == tail;
      }
      assert [id[0]] + id[1..] == id;
    }
  }

  /** The job state a stored string holds, or why it holds none. */
  function Deserialize(text: string): Result<JobState, DecodeError>
  {
    match SplitId(text)
    case Failure(e) => Failure(e)
    case Success(p) => Success(JobState(p.0, p.1))
  }

  /** Decoding the encoding of a state gives back that state. */
  lemma DecodeEncode(s: JobState)
    ensures Deserialize(Serialize(s)) == Success(s)
  {
    SplitIdOfEscaped(s.playbookId, s.details);
  }

  /** Different states are stored as different strings. */
  lemma SerializeInjective(a: JobState, b: JobState)
    requires Serialize(a) == Serialize(b)
    ensures a == b
  {
    DecodeEncode(a);
    DecodeEncode(b);
  }

  /** A string with no separator in it holds no job state. */
  lemma {:induction false} NoSeparatorIsCorrupt(text: string)
    requires forall i :: 0 <= i < |text| ==> text[i] != SEPARATOR
    ensures Deserialize(text).Failure?
  {
    if text != [] && text[0] == ESCAPE && |text| >= 2 && Special(text[1]) {
      NoSeparatorIsCorrupt(text[2..]);
    } else if text != [] && text[0] != ESCAPE {
      NoSeparatorIsCorrupt(text[1..]);
    }
  }
}
