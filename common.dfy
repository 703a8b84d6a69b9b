/** Values shared by the server and the client: bytes, optional values,
    concatenation of received chunks and the textual error marker. */
module Common {

  /** One octet of a Node.js `Buffer`. */
  newtype byte = x: int | 0 <= x < 256

  datatype Option<T> = None | Some(value: T)

  /** `Buffer.concat` / string `+=` over a list of pieces, in order. */
  function Concat<T>(pieces: seq<seq<T>>): seq<T>
  {
    if pieces == [] then [] else pieces[0] + Concat(pieces[1..])
  }

  lemma {:induction false} ConcatAppend<T>(pieces: seq<seq<T>>, last: seq<T>)
    ensures Concat(pieces + [last]) == Concat(pieces) + last
  {
    if pieces == [] {
      assert [last][1..] == [];
    } else {
      assert (pieces + [last])[1..] == pieces[1..] + [last];
      ConcatAppend(pieces[1..], last);
    }
  }

  /** The UTF-8 encoding of one character, as `Buffer.from` writes it: one
      byte below U+0080, otherwise two to four bytes that are all 0x80 or
      above, so that no ASCII byte stands for part of a wider character. */
  function Utf8Char(c: char): (b: seq<byte>)
    ensures 1 <= |b| <= 4
    ensures c as int < 0x80 ==> b == [c as int as byte]
    ensures c as int >= 0x80 ==> forall i :: 0 <= i < |b| ==> b[i] >= 0x80
  {
    var n := c as int;
    if n < 0x80 then [n as byte]
    else if n < 0x800 then [(0xC0 + n / 0x40) as byte, (0x80 + n % 0x40) as byte]
    else if n < 0x10000 then
      [(0xE0 + n / 0x1000) as byte, (0x80 + n / 0x40 % 0x40) as byte, (0x80 + n % 0x40) as byte]
    else
      [(0xF0 + n / 0x40000) as byte, (0x80 + n / 0x1000 % 0x40) as byte,
       (0x80 + n / 0x40 % 0x40) as byte, (0x80 + n % 0x40) as byte]
  }

  /** The UTF-8 bytes of a string: what a socket sends for a string argument. */
  function Utf8(s: string): seq<byte>
  {
    if s == [] then [] else Utf8Char(s[0]) + Utf8(s[1..])
  }

  /** Encoding distributes over concatenation. */
  lemma {:induction false} Utf8Append(a: string, b: string)
    ensures Utf8(a + b) == Utf8(a) + Utf8(b)
  {
    if a == [] {
      assert a + b == b;
    } else {
      assert (a + b)[1..] == a[1..] + b;
      Utf8Append(a[1..], b);
    }
  }

  /** The text both receivers test received data for. */
  const ErrorText: string := "ERROR"

  /** Its bytes. */
  const ErrorMarker: seq<byte> := [69, 82, 82, 79, 82]

  /** `buf.toString().startsWith('ERROR')`. UTF-8 bytes at or above 0x80 never
      decode to an ASCII letter, so this is a test on the first five bytes. */
  predicate StartsWithError(b: seq<byte>)
  {
    ErrorMarker <= b
  }

  /** None of the received pieces would be taken for an error line. */
  predicate NoErrorChunk(chunks: seq<seq<byte>>)
  {
    forall i :: 0 <= i < |chunks| ==> !StartsWithError(chunks[i])
  }

  lemma ErrorMarkerSpellsError()
    ensures Utf8(ErrorText) == ErrorMarker
  {
  }

  /** Any line that begins with the text "ERROR" is recognised as an error. */
  lemma ErrorLineIsMarked(rest: string)
    ensures StartsWithError(Utf8(ErrorText + rest))
  {
    Utf8Append(ErrorText, rest);
    ErrorMarkerSpellsError();
  }

  /** Why a download promise was rejected. */
  datatype Reason =
    | ServerError(message: seq<byte>)  // received data that starts with "ERROR"
    | SocketFailure                    // the socket's `'error'` event
    | SaveFailure                      // `fs.writeFile` reported an error
    | RequestFailure                   // the UDP request could not be sent

  /** A promise settles once; later calls to `resolve`/`reject` are ignored. */
  datatype Outcome = Pending | Resolved | Rejected(reason: Reason)

  function Settle(current: Outcome, next: Outcome): (r: Outcome)
    ensures current == Pending ==> r == next
    ensures current != Pending ==> r == current
  {
    if current == Pending then next else current
  }
}
