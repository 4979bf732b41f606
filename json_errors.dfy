/**
 * GlobalExceptionHandler.sanitizeJsonErrorMessage: the Jackson parse error message with the
 * internal type name (" of type `...`") cut out and everything from the first ':' after the
 * "JSON parse error:" prefix dropped.  Java's indexOf and substring are modelled with their
 * own conventions: -1 for "not found", and an exception for indices out of order or range.
 */
module JsonErrors {
  import opened Results

  /** "JSON parse error:".length() and the marker in front of a type name. */
  const JSON_ERROR_DESCRIPTION_START: int := |"JSON parse error:"|
  const TYPE_NAME_START: string := " of type `"

  // Java's String searches.

  /** s.indexOf(c, from): the first position at or after from holding c, or -1. */
  function IndexOfChar(s: string, c: char, from: int): (i: int)
    ensures i == -1 || (0 <= i < |s| && from <= i && s[i] == c)
    decreases |s| - from, if from < 0 then 1 else 0
  {
    if from < 0 then IndexOfChar(s, c, 0)
    else if from >= |s| then -1
    else if s[from] == c then from
    else IndexOfChar(s, c, from + 1)
  }

  /** No position from `from` on before the result holds c; -1 exactly when none does. */
  lemma {:induction false} IndexOfCharIsFirst(s: string, c: char, from: int)
    ensures var i := IndexOfChar(s, c, from);
      && (i == -1 <==> forall k :: 0 <= k < |s| && from <= k ==> s[k] != c)
      && (i != -1 ==> forall k :: 0 <= k < i && from <= k ==> s[k] != c)
    decreases |s| - from, if from < 0 then 1 else 0
  {
    if from < 0 {
      IndexOfCharIsFirst(s, c, 0);
    } else if from < |s| && s[from] != c {
      IndexOfCharIsFirst(s, c, from + 1);
    }
  }

  /** t occurs in s at position k. */
  predicate OccursAt(s: string, t: string, k: int)
  {
    0 <= k && k + |t| <= |s| && s[k..k + |t|] == t
  }

  /** The first occurrence of t in s at or after from (from >= 0), or -1. */
  function IndexOfFrom(s: string, t: string, from: nat): (i: int)
    ensures i == -1 || (from <= i && OccursAt(s, t, i))
    decreases |s| - from
  {
    if from + |t| > |s| then -1
    else if s[from..from + |t|] == t then from
    else IndexOfFrom(s, t, from + 1)
  }

  lemma {:induction false} IndexOfFromIsFirst(s: string, t: string, from: nat)
    ensures var i := IndexOfFrom(s, t, from);
      && (i == -1 <==> forall k :: from <= k ==> !OccursAt(s, t, k))
      && (i != -1 ==> forall k :: from <= k < i ==> !OccursAt(s, t, k))
    decreases |s| - from
  {
    if from + |t| <= |s| && s[from..from + |t|] != t {
      IndexOfFromIsFirst(s, t, from + 1);
    }
  }

  /** s.indexOf(t). */
  function IndexOf(s: string, t: string): (i: int)
    ensures i == -1 || OccursAt(s, t, i)
  {
    IndexOfFrom(s, t, 0)
  }

  /** indexOf finds the first occurrence, and -1 exactly when there is none. */
  lemma IndexOfIsFirst(s: string, t: string)
    ensures IndexOf(s, t) == -1 <==> forall k :: !OccursAt(s, t, k)
    ensures IndexOf(s, t) != -1 ==> forall k :: 0 <= k < IndexOf(s, t) ==> !OccursAt(s, t, k)
  {
    IndexOfFromIsFirst(s, t, 0);
  }

  /** A char found at i with none of it between from and i is what indexOf(c, from) returns. */
  lemma FirstCharAt(s: string, c: char, from: int, i: int)
    requires 0 <= from <= i < |s| && s[i] == c
    requires forall p :: from <= p < i ==> s[p] != c
    ensures IndexOfChar(s, c, from) == i
  {
    IndexOfCharIsFirst(s, c, from);
  }

  /** A char absent from position from on makes indexOf(c, from) return -1. */
  lemma NoCharFrom(s: string, c: char, from: int)
    requires 0 <= from && forall p :: from <= p < |s| ==> s[p] != c
    ensures IndexOfChar(s, c, from) == -1
  {
    IndexOfCharIsFirst(s, c, from);
  }

  /** What s.substring(begin, end) throws for indices out of order or out of range. */
  datatype StringIndexOutOfBounds = StringIndexOutOfBounds(begin: int, end: int, length: int)

  /** s.substring(begin, end). */
  function Substring(s: string, begin: int, end: int): (r: Result<string, StringIndexOutOfBounds>)
    ensures r.Ok? <==> 0 <= begin <= end <= |s|
    ensures r.Ok? ==> |r.value| == end - begin && forall k :: 0 <= k < |r.value| ==> r.value[k] == s[begin + k]
    ensures r.Err? ==> r.error == StringIndexOutOfBounds(begin, end, |s|)
  {
    if 0 <= begin <= end <= |s| then Ok(s[begin..end]) else Err(StringIndexOutOfBounds(begin, end, |s|))
  }

  // The three positions the method computes.

  function TypeNameStart(message: string): int
  {
    IndexOf(message, TYPE_NAME_START)
  }

  /** The closing backtick, searched only after the end of the marker; -1 without a marker. */
  function TypeNameEnd(message: string): (i: int)
    ensures i != -1 ==> 0 <= TypeNameStart(message) && TypeNameStart(message) + |TYPE_NAME_START| <= i < |message|
    ensures i != -1 ==> message[i] == '`'
  {
    var typeNameStart := TypeNameStart(message);
    if typeNameStart != -1 then IndexOfChar(message, '`', typeNameStart + |TYPE_NAME_START|) else -1
  }

  /** The first ':' at or after "JSON parse error:".length(). */
  function DescriptionEnd(message: string): (i: int)
    ensures i == -1 || (JSON_ERROR_DESCRIPTION_START <= i < |message| && message[i] == ':')
  {
    IndexOfChar(message, ':', JSON_ERROR_DESCRIPTION_START)
  }

  // As written.

  /** sanitizeJsonErrorMessage as written: the message itself when neither position was
    * found, otherwise the two substrings, either of which may throw. */
  function Sanitize(message: string): (r: Result<string, StringIndexOutOfBounds>)
    ensures TypeNameEnd(message) == -1 && DescriptionEnd(message) == -1 ==> r == Ok(message)
    ensures r.Ok? <==>
      (TypeNameEnd(message) == -1 && DescriptionEnd(message) == -1) ||
      (0 <= TypeNameStart(message) && TypeNameEnd(message) + 1 <= DescriptionEnd(message))
    ensures r.Ok? && !(TypeNameEnd(message) == -1 && DescriptionEnd(message) == -1) ==>
      r.value == message[..TypeNameStart(message)] + message[TypeNameEnd(message) + 1..DescriptionEnd(message)]
  {
    var typeNameStart := TypeNameStart(message);
    var typeNameEnd := TypeNameEnd(message);
    var descriptionEnd := DescriptionEnd(message);
    if typeNameEnd == -1 && descriptionEnd == -1 then Ok(message)
    else
      match Substring(message, 0, typeNameStart)
      case Err(e) => Err(e)
      case Ok(head) =>
        match Substring(message, typeNameEnd + 1, descriptionEnd)
        case Err(e) => Err(e)
        case Ok(tail) => Ok(head + tail)
  }

  /** Without the marker, any ':' after the prefix makes substring(0, -1) throw. */
  lemma NoMarkerButColonThrows(message: string)
    requires TypeNameStart(message) == -1 && DescriptionEnd(message) != -1
    ensures Sanitize(message) == Err(StringIndexOutOfBounds(0, -1, |message|))
  {
  }

  /** With a complete type name but no ':' after the prefix, substring(end + 1, -1) throws. */
  lemma TypeNameButNoColonThrows(message: string)
    requires TypeNameEnd(message) != -1 && DescriptionEnd(message) == -1
    ensures Sanitize(message).Err?
  {
  }

  /** A ':' after the prefix but before the end of the type name puts substring's indices
    * out of order. */
  lemma ColonInsideTypeNameThrows(message: string)
    requires TypeNameEnd(message) != -1 && DescriptionEnd(message) != -1
    requires DescriptionEnd(message) <= TypeNameEnd(message)
    ensures Sanitize(message).Err?
  {
  }

  /** A message of the parser's usual shape with no type name. */
  const NO_MARKER: string := "JSON parse error: bad: token"

  lemma NoMarkerPositions()
    ensures TypeNameStart(NO_MARKER) == -1 && TypeNameEnd(NO_MARKER) == -1 && DescriptionEnd(NO_MARKER) == 21
  {
    var m := NO_MARKER;
    assert m[17] == ' ' && m[18] == 'b' && m[19] == 'a' && m[20] == 'd' && m[21] == ':';
    FirstCharAt(m, ':', 17, 21);
    assert '`' !in m;
    NoBacktickNoMarker(m);
  }

  /** That message throws: substring(0, -1). */
  lemma NoMarkerExample()
    ensures Sanitize(NO_MARKER) == Err(StringIndexOutOfBounds(0, -1, |NO_MARKER|))
  {
    NoMarkerPositions();
    NoMarkerButColonThrows(NO_MARKER);
  }

  /** A message with a type name and no ':' at all. */
  const NO_COLON: string := " of type `T`"

  lemma NoColonPositions()
    ensures TypeNameStart(NO_COLON) == 0 && TypeNameEnd(NO_COLON) == 11 && DescriptionEnd(NO_COLON) == -1
  {
    var m := NO_COLON;
    assert m[0..10] == TYPE_NAME_START;
    assert TypeNameStart(m) == 0;
    assert m[10] == 'T' && m[11] == '`';
    assert TypeNameEnd(m) == 11;
    assert DescriptionEnd(m) == -1;
  }

  /** That message throws: substring(12, -1). */
  lemma NoColonExample()
    ensures Sanitize(NO_COLON).Err?
  {
    NoColonPositions();
    TypeNameButNoColonThrows(NO_COLON);
  }

  /** A message with a ':' after the prefix but before the type name's closing backtick. */
  const COLON_FIRST: string := "JSON parse error: x: of type `T`"

  lemma ColonFirstPositions()
    ensures TypeNameStart(COLON_FIRST) == 20 && TypeNameEnd(COLON_FIRST) == 31
  {
    var m := COLON_FIRST;
    assert m[20..30] == TYPE_NAME_START;
    assert forall p :: 0 <= p < 29 ==> m[p] != '`';
    MarkerAt(m, 20);
    FirstCharAt(m, '`', 30, 31);
  }

  lemma ColonFirstDescriptionEnd()
    ensures DescriptionEnd(COLON_FIRST) == 19
  {
    var m := COLON_FIRST;
    assert m[17] == ' ' && m[18] == 'x' && m[19] == ':';
    FirstCharAt(m, ':', 17, 19);
  }

  /** That message throws: substring(32, 19) has its indices out of order. */
  lemma ColonBeforeTypeNameExample()
    ensures Sanitize(COLON_FIRST).Err?
  {
    ColonFirstPositions();
    ColonFirstDescriptionEnd();
    ColonInsideTypeNameThrows(COLON_FIRST);
  }

  /** With the marker but no closing backtick, a ':' after the prefix makes the method return
    * the text before the marker followed by the message up to the ':' again from its start. */
  lemma UnclosedMarkerRepeats(message: string)
    requires TypeNameStart(message) != -1 && TypeNameEnd(message) == -1 && DescriptionEnd(message) != -1
    ensures Sanitize(message) == Ok(message[..TypeNameStart(message)] + message[..DescriptionEnd(message)])
  {
  }

  /** A message whose marker is never closed. */
  const UNCLOSED: string := "JSON parse error: a of type `b: c"

  lemma UnclosedTypeName()
    ensures TypeNameStart(UNCLOSED) == 19 && TypeNameEnd(UNCLOSED) == -1
  {
    var m := UNCLOSED;
    assert m[19..29] == TYPE_NAME_START;
    assert forall p :: 0 <= p < 28 ==> m[p] != '`';
    MarkerAt(m, 19);
    assert m[29] == 'b' && m[30] == ':' && m[31] == ' ' && m[32] == 'c';
    NoCharFrom(m, '`', 29);
  }

  lemma UnclosedDescriptionEnd()
    ensures DescriptionEnd(UNCLOSED) == 30
  {
    var m := UNCLOSED;
    assert forall p :: 17 <= p < 30 ==> m[p] != ':';
    assert m[30] == ':';
    FirstCharAt(m, ':', 17, 30);
  }

  /** That message comes back with its start twice. */
  lemma UnclosedMarkerExample()
    ensures Sanitize(UNCLOSED) == Ok("JSON parse error: a" + "JSON parse error: a of type `b")
  {
    UnclosedTypeName();
    UnclosedDescriptionEnd();
    UnclosedMarkerRepeats(UNCLOSED);
    assert UNCLOSED[..19] == "JSON parse error: a";
    assert UNCLOSED[..30] == "JSON parse error: a of type `b";
  }

  /** A marker at k with no backtick before its own is the first marker. */
  lemma MarkerAt(m: string, k: int)
    requires OccursAt(m, TYPE_NAME_START, k)
    requires forall p :: 0 <= p < k + 9 ==> m[p] != '`'
    ensures TypeNameStart(m) == k
  {
    forall q | 0 <= q < k ensures !OccursAt(m, TYPE_NAME_START, q) {
      assert m[q..q + |TYPE_NAME_START|][9] == m[q + 9];
    }
    IndexOfIsFirst(m, TYPE_NAME_START);
  }

  /** The marker ends in a backtick, so a message without one holds no marker. */
  lemma NoBacktickNoMarker(m: string)
    requires '`' !in m
    ensures TypeNameStart(m) == -1
  {
    forall k ensures !OccursAt(m, TYPE_NAME_START, k) {
      if 0 <= k && k + |TYPE_NAME_START| <= |m| {
        assert m[k + 9] in m;
        assert m[k..k + |TYPE_NAME_START|][9] != '`';
      }
    }
    IndexOfIsFirst(m, TYPE_NAME_START);
  }

  // As evidently intended.

  /** Both the closing backtick of a type name and a later ':' were found. */
  predicate Cuts(message: string)
  {
    TypeNameEnd(message) != -1 && TypeNameEnd(message) < DescriptionEnd(message)
  }

  /** The message unchanged unless both the closing backtick and a later ':' were found;
    * then the text before the marker and the text between the backtick and the ':'. The
    * result is the message itself exactly when there is nothing to cut; otherwise it keeps
    * the text before the marker in place and shifts the text after the backtick left over the
    * marker and the type name, ending where the ':' was. */
  function SanitizeIntended(message: string): (r: string)
    ensures |r| <= |message|
    ensures r == message <==> !Cuts(message)
    ensures Cuts(message) ==>
      && |r| == TypeNameStart(message) + (DescriptionEnd(message) - TypeNameEnd(message) - 1)
      && (forall k :: 0 <= k < TypeNameStart(message) ==> r[k] == message[k])
      && (forall k :: TypeNameStart(message) <= k < |r| ==>
            r[k] == message[k + (TypeNameEnd(message) + 1 - TypeNameStart(message))])
  {
    var typeNameStart := TypeNameStart(message);
    var typeNameEnd := TypeNameEnd(message);
    var descriptionEnd := DescriptionEnd(message);
    if typeNameEnd == -1 || descriptionEnd <= typeNameEnd then message
    else message[..typeNameStart] + message[typeNameEnd + 1..descriptionEnd]
  }

  /** Wherever the method as written returns, the corrected one returns the same message,
    * except for an unclosed marker, where the source repeats the start of the message. */
  lemma SanitizeIntendedAgrees(message: string)
    requires Sanitize(message).Ok?
    requires !(TypeNameEnd(message) == -1 && DescriptionEnd(message) != -1)
    ensures SanitizeIntended(message) == Sanitize(message).value
  {
  }

  /** The corrected method removes the whole type name, marker and backticks included. */
  lemma SanitizeIntendedDropsTypeName(message: string)
    requires TypeNameEnd(message) != -1 && TypeNameEnd(message) < DescriptionEnd(message)
    ensures |SanitizeIntended(message)| == |message| - (TypeNameEnd(message) + 1 - TypeNameStart(message)) - (|message| - DescriptionEnd(message))
    ensures |SanitizeIntended(message)| < |message| - |TYPE_NAME_START|
  {
  }

  /** On each of the four messages above the corrected method returns the message itself. */
  lemma SanitizeIntendedOnFindings()
    ensures SanitizeIntended(NO_MARKER) == NO_MARKER
    ensures SanitizeIntended(NO_COLON) == NO_COLON
    ensures SanitizeIntended(COLON_FIRST) == COLON_FIRST
    ensures SanitizeIntended(UNCLOSED) == UNCLOSED
  {
    NoMarkerPositions();
    NoColonPositions();
    ColonFirstPositions();
    ColonFirstDescriptionEnd();
    UnclosedTypeName();
  }
}
