/**
 The response handler, without the remote model call: the model's reply text
 is an input, and strict JSON decoding is an oracle `loads` telling what the
 decoder makes of a text.
 */
module Reply {
  import opened Results

  /**
   What strict JSON decoding yields, as far as the handler can observe it.
   `Malformed`: the decoder rejects the text. `Members(keys)`: the decoded
   value is an object, array or string, and `keys` holds the strings a
   membership test `field in value` accepts (the object's keys, the array's
   string elements, or the string's substrings). `NotIterable(error)`: the
   value is a number, true, false or null, on which a membership test raises
   a type error whose message is `error`.
   */
  datatype Json = Malformed | Members(keys: set<string>) | NotIterable(error: string)

  /** The report fields a decoded reply must carry, in the order they are checked. */
  const RequiredFields: seq<string> := ["JD Match", "MissingKeywords", "Profile Summary"]

  const EmptyReply := "Empty response received from Gemini"
  const NoJson := "Could not extract valid JSON response"

  function MissingField(field: string): string {
    "Missing required field: " + field
  }

  /** Every failure leaves the handler with this stage prefix. */
  function Wrap(cause: string): string {
    "Error generating response: " + cause
  }

  /** Field number `k` is absent from `keys`, and every field checked before it is present. */
  predicate FirstMissingAt(keys: set<string>, k: int) {
    && 0 <= k < |RequiredFields|
    && RequiredFields[k] !in keys
    && forall m :: 0 <= m < k ==> RequiredFields[m] in keys
  }

  /**
   The field check of the strict path: the fields are checked in order and
   the first absent one is reported; nothing is reported when all are present.
   */
  method FindMissingField(keys: set<string>) returns (missing: Option<string>)
    ensures missing.None? <==> forall k :: 0 <= k < |RequiredFields| ==> RequiredFields[k] in keys
    ensures missing.Some? ==> exists k :: FirstMissingAt(keys, k) && missing.value == RequiredFields[k]
  {
    var fields := RequiredFields;
    for i := 0 to |fields|
      invariant forall m :: 0 <= m < i ==> fields[m] in keys
    {
      if fields[i] !in keys {
        assert FirstMissingAt(keys, i);
        return Some(fields[i]);
      }
    }
    return None;
  }

  // ---------------------------------------------------------------------
  // The recovery pattern `\{.*\}` with DOTALL, as `re.search` runs it.
  // ---------------------------------------------------------------------

  /**
   Backtracking of `.*` in a match that opened with the `{` at index `a`:
   the closing `}` is tried at end - 1, end - 2, ... down to a + 1, so the
   first success is the last `}` before `end`.
   */
  function CloseFrom(s: string, a: nat, end: nat): (r: Option<nat>)
    requires a < end <= |s|
    ensures r.Some? ==> a < r.value < end && s[r.value] == '}' && forall p :: r.value < p < end ==> s[p] != '}'
    ensures r.None? ==> forall p :: a < p < end ==> s[p] != '}'
    decreases end
  {
    if end == a + 1 then None
    else if s[end - 1] == '}' then Some(end - 1)
    else CloseFrom(s, a, end - 1)
  }

  /**
   One match attempt at index `a`: it succeeds iff a `{` stands there and
   some `}` follows, and it then ends on the last `}` of the text.
   */
  function MatchAt(s: string, a: nat): (r: Option<nat>)
    requires a < |s|
    ensures r.Some? ==> s[a] == '{' && a < r.value < |s| && s[r.value] == '}' && forall p :: r.value < p < |s| ==> s[p] != '}'
    ensures r.None? <==> s[a] != '{' || forall p :: a < p < |s| ==> s[p] != '}'
  {
    if s[a] == '{' then CloseFrom(s, a, |s|) else None
  }

  /** `re.search` from index `a` on: the first start at which the pattern matches, with its end. */
  function SearchFrom(s: string, a: nat): (r: Option<(nat, nat)>)
    ensures r.Some? ==> a <= r.value.0 < r.value.1 < |s|
    decreases |s| - a
  {
    if a >= |s| then None
    else
      match MatchAt(s, a)
      case Some(b) => Some((a, b))
      case None => SearchFrom(s, a + 1)
  }

  /**
   `re.search(r'\{.*\}', s, re.DOTALL)` followed by `match.group()`: there is
   a match iff some `{` precedes some `}`, and the matched text starts with
   `{` and ends with `}`.
   */
  function RegexSearch(s: string): (r: Option<string>)
    ensures r.Some? <==> exists a, b :: BracePair(s, a, b)
    ensures r.Some? ==> |r.value| >= 2 && r.value[0] == '{' && r.value[|r.value| - 1] == '}'
  {
    RegexSearchIsBraceSpan(s);
    match SearchFrom(s, 0)
    case Some((a, b)) => Some(s[a..b + 1])
    case None => None
  }

  // ---------------------------------------------------------------------
  // The same extraction as an index computation.
  // ---------------------------------------------------------------------

  function FindFrom(s: string, c: char, a: nat): (r: Option<nat>)
    ensures r.Some? ==> a <= r.value < |s| && s[r.value] == c && forall k :: a <= k < r.value ==> s[k] != c
    ensures r.None? ==> forall k :: a <= k < |s| ==> s[k] != c
    decreases |s| - a
  {
    if a >= |s| then None
    else if s[a] == c then Some(a)
    else FindFrom(s, c, a + 1)
  }

  function FindLastBefore(s: string, c: char, end: nat): (r: Option<nat>)
    requires end <= |s|
    ensures r.Some? ==> r.value < end && s[r.value] == c && forall k :: r.value < k < end ==> s[k] != c
    ensures r.None? ==> forall k :: 0 <= k < end ==> s[k] != c
    decreases end
  {
    if end == 0 then None
    else if s[end - 1] == c then Some(end - 1)
    else FindLastBefore(s, c, end - 1)
  }

  /** Some `{` at index a comes before some `}` at index b. */
  predicate BracePair(s: string, a: int, b: int) {
    0 <= a < b < |s| && s[a] == '{' && s[b] == '}'
  }

  /**
   The span from the first `{` to the last `}`, when the first comes before
   the last. It exists exactly when some `{` precedes some `}`, and it then
   contains every such pair: no brace-bounded span starts earlier or ends later.
   */
  function BraceSpan(s: string): (r: Option<(nat, nat)>)
    ensures r.Some? ==> BracePair(s, r.value.0, r.value.1)
    ensures r.Some? ==> forall a, b :: BracePair(s, a, b) ==> r.value.0 <= a && b <= r.value.1
    ensures r.None? <==> forall a, b :: !BracePair(s, a, b)
  {
    var first, last := FindFrom(s, '{', 0), FindLastBefore(s, '}', |s|);
    assert forall a, b :: BracePair(s, a, b) ==>
      first.Some? && last.Some? && first.value <= a && b <= last.value;
    if first.Some? && last.Some? && first.value < last.value then
      assert BracePair(s, first.value, last.value);
      Some((first.value, last.value))
    else
      None
  }

  lemma {:induction false} SearchSkips(s: string, a: nat, i: nat)
    requires a <= i <= |s|
    requires forall k :: a <= k < i ==> s[k] != '{'
    ensures SearchFrom(s, a) == SearchFrom(s, i)
    decreases i - a
  {
    if a < i {
      SearchSkips(s, a + 1, i);
    }
  }

  lemma {:induction false} SearchFailsWithoutClose(s: string, a: nat)
    requires forall k :: a <= k < |s| ==> s[k] != '}'
    ensures SearchFrom(s, a) == None
    decreases |s| - a
  {
    if a < |s| {
      SearchFailsWithoutClose(s, a + 1);
    }
  }

  /**
   The backtracking search and the index computation agree: `re.search`
   with `\{.*\}` and DOTALL matches exactly from the first `{` to the last
   `}`, and fails when the first `{` does not come before the last `}`.
   */
  lemma RegexSearchIsBraceSpan(s: string)
    ensures SearchFrom(s, 0) == BraceSpan(s)
  {
    match FindFrom(s, '{', 0)
    case None =>
      SearchSkips(s, 0, |s|);
    case Some(i) =>
      SearchSkips(s, 0, i);
      match CloseFrom(s, i, |s|)
      case Some(b) =>
        assert FindLastBefore(s, '}', |s|) == Some(b);
      case None =>
        SearchFailsWithoutClose(s, i + 1);
        assert SearchFrom(s, i) == SearchFrom(s, i + 1);
  }

  /**
   A recovered payload starts with `{`, ends with `}`, and is the contiguous
   piece of the reply from its first `{` to its last `}`.
   */
  lemma RecoveredPayload(s: string)
    requires RegexSearch(s).Some?
    ensures var t := RegexSearch(s).value;
      && |t| >= 2 && t[0] == '{' && t[|t| - 1] == '}'
      && exists i :: 0 <= i && i + |t| <= |s| && t == s[i..i + |t|] && '{' !in s[..i] && '}' !in s[i + |t|..]
  {
    RegexSearchIsBraceSpan(s);
    var (i, j) := BraceSpan(s).value;
    assert FindFrom(s, '{', 0) == Some(i);
    assert FindLastBefore(s, '}', |s|) == Some(j);
    var t := s[i..j + 1];
    assert RegexSearch(s).value == t;
    assert t == s[i..i + |t|];
    assert '{' !in s[..i] by {
      assert forall k :: 0 <= k < i ==> s[..i][k] == s[k];
    }
    assert '}' !in s[i + |t|..] by {
      var tail := s[j + 1..];
      assert forall k :: 0 <= k < |tail| ==> tail[k] == s[j + 1 + k];
    }
  }

  /**
   A reply that is not JSON and holds an object among brace-free noise is
   recovered as exactly that object.
   */
  lemma EmbeddedObjectRecovered(noise: string, obj: string, trailing: string)
    requires '{' !in noise && '}' !in trailing
    requires |obj| >= 2 && obj[0] == '{' && obj[|obj| - 1] == '}'
    ensures RegexSearch(noise + obj + trailing) == Some(obj)
  {
    var s := noise + obj + trailing;
    var i, j := |noise|, |noise| + |obj| - 1;
    RegexSearchIsBraceSpan(s);
    assert BracePair(s, i, j);
    assert forall k :: 0 <= k < i ==> s[k] == noise[k];
    assert forall k :: j < k < |s| ==> s[k] == trailing[k - j - 1];
    assert BraceSpan(s) == Some((i, j));
    assert s[i..j + 1] == obj;
  }

  /**
   `get_gemini_response` after the model call. An empty reply fails. A reply
   the decoder accepts is returned unchanged when all required fields are
   present, and otherwise fails naming the first missing field; a decoded
   number, boolean or null fails on the membership test. A reply the decoder
   rejects is searched for `\{.*\}`: the match is returned without any field
   check, and no match fails. Every failure carries the stage prefix.
   */
  method HandleReply(reply: string, loads: string -> Json) returns (r: Result<string>)
    ensures reply == "" ==> r == Err(Wrap(EmptyReply))
    ensures reply != "" && loads(reply).Members? ==>
      && (r.Ok? <==> forall k :: 0 <= k < |RequiredFields| ==> RequiredFields[k] in loads(reply).keys)
      && (r.Ok? ==> r.value == reply)
      && (r.Err? ==> exists k :: FirstMissingAt(loads(reply).keys, k) && r.message == Wrap(MissingField(RequiredFields[k])))
    ensures reply != "" && loads(reply).NotIterable? ==> r == Err(Wrap(loads(reply).error))
    ensures reply != "" && loads(reply).Malformed? ==>
      r == match RegexSearch(reply)
           case Some(payload) => Ok(payload)
           case None => Err(Wrap(NoJson))
  {
    if reply == "" {
      return Err(Wrap(EmptyReply));
    }
    match loads(reply)
    case Members(keys) =>
      var missing := FindMissingField(keys);
      if missing.Some? {
        return Err(Wrap(MissingField(missing.value)));
      }
      return Ok(reply);
    case NotIterable(error) =>
      return Err(Wrap(error));
    case Malformed =>
      var found := RegexSearch(reply);
      if found.Some? {
        return Ok(found.value);
      }
      return Err(Wrap(NoJson));
  }
}
