/** A JSON document fenced by a marker inside output that is not only that document. The JSON decoder
    is a parameter; what matters about it is that a fenced document delimits itself. */
module Payload {
  import opened Wrappers
  import opened Text

  const PAYLOAD := "<<<payload>>>"

  datatype Failure = NoMarker | NotJson

  /** What was fenced last, by a decoder that reads one document from the start of a text. */
  function Fenced<V>(stdout: string, decode: string -> Option<V>): Result<V, Failure> {
    match FindLast(stdout, PAYLOAD)
    case None => Err(NoMarker)
    case Some(at) =>
      match decode(LStrip(stdout[at + |PAYLOAD|..]))
      case None => Err(NotJson)
      case Some(value) => Ok(value)
  }

  // ---------------------------------------------------------------- where the last marker is

  /** No proper part of the marker is both its beginning and its end. */
  ghost predicate BorderFree(marker: string) {
    marker != "" && forall d | 0 < d < |marker| :: marker[d..] != marker[..|marker| - d]
  }

  lemma PayloadIsBorderFree()
    ensures BorderFree(PAYLOAD)
  {
    forall d | 0 < d < |PAYLOAD| ensures PAYLOAD[d..] != PAYLOAD[..|PAYLOAD| - d] {
      if d < 3 {
        assert PAYLOAD[d..][3 - d] == 'p' && PAYLOAD[..|PAYLOAD| - d][3 - d] == '<';
      } else {
        assert PAYLOAD[d..][0] != '<';
      }
    }
  }

  /** Two occurrences that overlap give the marker a border. */
  lemma OverlapIsABorder(marker: string, s: string, i: nat, j: nat)
    requires OccursAt(s, marker, i) && OccursAt(s, marker, j) && i < j < i + |marker|
    ensures !BorderFree(marker)
  {
    var d := j - i;
    assert marker[d..] == s[i..i + |marker|][d..] == s[j..i + |marker|];
    assert marker[..|marker| - d] == s[j..j + |marker|][..|marker| - d] == s[j..i + |marker|];
  }

  lemma OccursAfter(before: string, rest: string, marker: string, i: nat)
    ensures OccursAt(rest, marker, i) <==> OccursAt(before + rest, marker, |before| + i)
  {
    if i + |marker| <= |rest| {
      assert (before + rest)[|before| + i..|before| + i + |marker|] == rest[i..i + |marker|];
    }
  }

  /** The exact condition: a fence is where the last marker is found if and only if no whole marker
      lies after it. */
  lemma LastMarkerExactly(noise: string, marker: string, rest: string)
    requires BorderFree(marker)
    ensures FindLast(noise + marker + rest, marker) == Some(|noise|) <==> !Occurs(rest, marker)
  {
    var s := noise + marker + rest;
    assert s[|noise|..|noise| + |marker|] == marker;
    assert OccursAt(s, marker, |noise|);
    forall i | 0 <= i <= |rest| ensures OccursAt(rest, marker, i) <==> OccursAt(s, marker, |noise + marker| + i) {
      OccursAfter(noise + marker, rest, marker, i);
    }
    if Occurs(rest, marker) {
      var i :| 0 <= i <= |rest| && OccursAt(rest, marker, i);
      assert OccursAt(s, marker, |noise + marker| + i);
    }
    var at := FindLast(s, marker).value;
    if at > |noise| {
      assert at >= |noise| + |marker| by {
        if at < |noise| + |marker| {
          OverlapIsABorder(marker, s, |noise|, at);
        }
      }
      assert OccursAt(rest, marker, at - |noise + marker|);
    }
  }

  /** And this is true of border-free markers only: a border lets the marker and less than a marker
      after it make a later one. */
  lemma BordersStraddle(marker: string)
    requires marker != "" && !BorderFree(marker)
    ensures exists rest :: !Occurs(rest, marker) && FindLast(marker + rest, marker) != Some(0)
  {
    var d :| 0 < d < |marker| && marker[d..] == marker[..|marker| - d];
    var rest := marker[|marker| - d..];
    var s := marker + rest;
    assert s[d..d + |marker|] == marker[d..] + rest == marker[..|marker| - d] + marker[|marker| - d..] == marker;
    assert OccursAt(s, marker, d);
    assert !Occurs(rest, marker) && FindLast(marker + rest, marker) != Some(0);
  }

  // ---------------------------------------------------------------- what is read

  /** The decoder reads `json` to `value` whatever follows it, as it does for the text of an object or
      an array; and such a text does not begin with white space. */
  ghost predicate Delimits<V(!new)>(decode: string -> Option<V>, json: string, value: V) {
    && json != "" && !IsSpace(json[0])
    && forall tail :: decode(json + tail) == Some(value)
  }

  lemma LeadingSpace(space: string, json: string, tail: string)
    requires AllSpace(space) && json != "" && !IsSpace(json[0])
    ensures LStrip(space + json + tail) == json + tail
  {
    var s := space + json + tail;
    assert forall i | 0 <= i < |space| :: s[i] == space[i];
    assert s[|space|] == json[0];
    assert Lead(s) == |space|;
  }

  /** A fenced document is read whatever was printed before it, even other fenced documents, and
      whatever is printed after it, as long as that holds no marker. */
  lemma FencedReadsBack<V(!new)>(
    noise: string, space: string, json: string, tail: string, decode: string -> Option<V>, value: V)
    requires AllSpace(space) && Delimits(decode, json, value)
    requires !Occurs(space + json + tail, PAYLOAD)
    ensures Fenced(noise + PAYLOAD + (space + json + tail), decode) == Ok(value)
  {
    hide Occurs, FindLast, BorderFree;
    var rest := space + json + tail;
    PayloadIsBorderFree();
    LastMarkerExactly(noise, PAYLOAD, rest);
    assert (noise + PAYLOAD + rest)[|noise| + |PAYLOAD|..] == rest;
    LeadingSpace(space, json, tail);
  }

  /** Output with a marker in it has exactly one cut into noise, a marker, and a rest without one; what
      is decoded is that rest. */
  lemma ReadsAfterTheLastMarker<V>(stdout: string, decode: string -> Option<V>) returns (noise: string, rest: string)
    requires Occurs(stdout, PAYLOAD)
    ensures stdout == noise + PAYLOAD + rest && !Occurs(rest, PAYLOAD)
    ensures forall n, r :: stdout == n + PAYLOAD + r && !Occurs(r, PAYLOAD) ==> n == noise && r == rest
    ensures Fenced(stdout, decode) ==
            var read := decode(LStrip(rest));
            if read.Some? then Ok(read.value) else Err(NotJson)
  {
    var at := FindLast(stdout, PAYLOAD).value;
    noise, rest := stdout[..at], stdout[at + |PAYLOAD|..];
    assert stdout == noise + PAYLOAD + rest;
    hide Occurs, FindLast, BorderFree;
    PayloadIsBorderFree();
    LastMarkerExactly(noise, PAYLOAD, rest);
    forall n, r | stdout == n + PAYLOAD + r && !Occurs(r, PAYLOAD) ensures n == noise && r == rest {
      LastMarkerExactly(n, PAYLOAD, r);
      assert stdout[..|n|] == n && stdout[|n| + |PAYLOAD|..] == r;
    }
  }

  /** The two ways to fail, told apart by whether a marker was printed at all. */
  lemma NoMarkerExactly<V>(stdout: string, decode: string -> Option<V>)
    ensures Fenced(stdout, decode) == Err(NoMarker) <==> !Occurs(stdout, PAYLOAD)
  {
  }
}
