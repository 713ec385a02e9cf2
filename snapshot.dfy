/**
 * The download record kept per id, its status, and the JSON text the
 * downloads page is built from (`GetDownloadsJSON`, `JsonEscape`,
 * `StatusToString`).
 */
module Snapshot {
  import opened Wrappers
  import opened Strings

  /** The five states of a download; there is no other value. */
  datatype Status = Requested | InProgress | Completed | Failed | Cancelled

  predicate IsTerminal(s: Status) {
    s == Completed || s == Failed || s == Cancelled
  }

  /**
   * One download. Byte counters are the 64-bit signed fields of the
   * source; times are milliseconds since the epoch, and a finish time of 0
   * stands for the unset time point.
   */
  datatype Record = Record(
    id: nat,
    url: string,
    displayName: string,
    path: string,
    expectedBytes: int,
    receivedBytes: int,
    status: Status,
    startedAt: int,
    finishedAt: int,
    error: string,
    sequence: nat)

  /** A record as `GetOrCreateRecordLocked` creates it: the declared defaults plus the id and the creation time. */
  function NewRecord(id: nat, now: int): (r: Record)
    ensures r.id == id && r.status == Requested && r.sequence == 0
    ensures r.expectedBytes == -1 && r.receivedBytes == 0
    ensures r.url == [] && r.displayName == [] && r.path == [] && r.error == []
    ensures r.startedAt == now && r.finishedAt == 0
  {
    Record(id, "", "", "", -1, 0, Requested, now, 0, "", 0)
  }

  // ----- StatusToString -----

  /** The name the snapshot writes for a status; StatusFromString reads it back. */
  function StatusToString(s: Status): (t: string)
    ensures t != [] && t != "unknown"
    ensures StatusFromString(t) == Some(s)
  {
    match s
    case Requested => "requested"
    case InProgress => "in-progress"
    case Completed => "completed"
    case Failed => "failed"
    case Cancelled => "cancelled"
  }

  /** The reading of a status name, the partner of StatusToString. */
  function StatusFromString(t: string): Option<Status> {
    if t == "requested" then Some(Requested)
    else if t == "in-progress" then Some(InProgress)
    else if t == "completed" then Some(Completed)
    else if t == "failed" then Some(Failed)
    else if t == "cancelled" then Some(Cancelled)
    else None
  }

  lemma StatusRoundTrip(s: Status)
    ensures StatusFromString(StatusToString(s)) == Some(s)
    ensures StatusToString(s) != "unknown"
  {
  }

  /** Distinct statuses are written as distinct names. */
  lemma StatusToStringInjective(s: Status, t: Status)
    requires StatusToString(s) == StatusToString(t)
    ensures s == t
  {
    StatusRoundTrip(s);
    StatusRoundTrip(t);
  }

  // ----- JsonEscape -----

  predicate HasShortEscape(c: char) {
    c == '"' || c == '\\' || c == '\U{08}' || c == '\U{0C}' || c == '\n' || c == '\r' || c == '\t'
  }

  /** The control characters that the escaping never lets through raw. */
  predicate IsEscapedControl(c: char) {
    c == '\U{08}' || c == '\U{0C}' || c == '\n' || c == '\r' || c == '\t'
  }

  /** The text one input character becomes. */
  function EscapeChar(c: char): (t: string)
    ensures HasShortEscape(c) ==> |t| == 2 && t[0] == '\\'
    ensures !HasShortEscape(c) ==> t == [c]
    ensures forall i :: 0 <= i < |t| ==> !IsEscapedControl(t[i])
  {
    match c
    case '"' => "\\\""
    case '\\' => "\\\\"
    case '\U{08}' => "\\b"
    case '\U{0C}' => "\\f"
    case '\n' => "\\n"
    case '\r' => "\\r"
    case '\t' => "\\t"
    case _ => [c]
  }

  /** The escaped form of a whole string: each character replaced by its EscapeChar text, in order. */
  function Escaped(s: string): (r: string)
    ensures |s| <= |r| <= 2 * |s|
    ensures forall i :: 0 <= i < |r| ==> !IsEscapedControl(r[i])
  {
    if s == [] then [] else EscapeChar(s[0]) + Escaped(s[1..])
  }

  /** The character a two-character escape stands for. */
  function UnescapePair(e: char): char {
    match e
    case 'b' => '\U{08}'
    case 'f' => '\U{0C}'
    case 'n' => '\n'
    case 'r' => '\r'
    case 't' => '\t'
    case _ => e
  }

  /** The reading of escaped text back into the original characters. */
  function Unescape(t: string): string {
    if t == [] then []
    else if t[0] == '\\' && |t| >= 2 then [UnescapePair(t[1])] + Unescape(t[2..])
    else [t[0]] + Unescape(t[1..])
  }

  lemma UnescapeStep(c: char, rest: string)
    ensures Unescape(EscapeChar(c) + rest) == [c] + Unescape(rest)
  {
    var e := EscapeChar(c);
    var t := e + rest;
    if HasShortEscape(c) {
      assert UnescapePair(e[1]) == c by {
        match c
        case '"' => case '\\' => case '\U{08}' => case '\U{0C}' =>
        case '\n' => case '\r' => case '\t' =>
        case _ =>
      }
      assert t[0] == '\\' && t[1] == e[1];
      assert t[2..] == rest;
    } else {
      assert t[0] == c != '\\';
      assert t[1..] == rest;
    }
  }

  /** Unescaping undoes the escaping, so the snapshot's string fields carry the exact bytes. */
  lemma {:induction false} EscapedRoundTrip(s: string)
    ensures Unescape(Escaped(s)) == s
  {
    if s != [] {
      UnescapeStep(s[0], Escaped(s[1..]));
      EscapedRoundTrip(s[1..]);
    }
  }

  /** Distinct strings escape to distinct texts. */
  lemma EscapedInjective(s: string, t: string)
    requires Escaped(s) == Escaped(t)
    ensures s == t
  {
    EscapedRoundTrip(s);
    EscapedRoundTrip(t);
  }

  lemma {:induction false} EscapedAppend(s: string, c: char)
    ensures Escaped(s + [c]) == Escaped(s) + EscapeChar(c)
  {
    if s == [] {
      assert s + [c] == [c];
    } else {
      assert (s + [c])[1..] == s[1..] + [c];
      EscapedAppend(s[1..], c);
    }
  }

  /** The escaping loop: one escape per input character, appended in order. */
  method JsonEscape(input: string) returns (out: string)
    ensures out == Escaped(input)
  {
    out := "";
    for i := 0 to |input|
      invariant out == Escaped(input[..i])
    {
      var c := input[i];
      match c {
        case '"' => out := out + "\\\"";
        case '\\' => out := out + "\\\\";
        case '\U{08}' => out := out + "\\b";
        case '\U{0C}' => out := out + "\\f";
        case '\n' => out := out + "\\n";
        case '\r' => out := out + "\\r";
        case '\t' => out := out + "\\t";
        case _ => out := out + [c];
      }
      assert input[..i + 1] == input[..i] + [c];
      EscapedAppend(input[..i], c);
    }
    assert input[..|input|] == input;
  }

  // ----- One record as a JSON object -----

  /** The three kinds of value a record object holds. */
  datatype JsonValue = JNum(n: int) | JStr(s: string) | JBool(b: bool)

  /** A value's text is never empty, and a string is the only value that opens with a quote. */
  function RenderValue(v: JsonValue): (t: string)
    ensures t != [] && (t[0] == '"' <==> v.JStr?)
  {
    match v
    case JNum(n) => IntToString(n)
    case JStr(s) => "\"" + Escaped(s) + "\""
    case JBool(b) => if b then "true" else "false"
  }

  /** A member is its key in quotes, a colon, then a non-empty value. */
  function RenderMember(m: (string, JsonValue)): (t: string)
    ensures |m.0| + 3 < |t| && t[0] == '"' && t[1..|m.0| + 1] == m.0 && t[|m.0| + 1..|m.0| + 3] == "\":"
  {
    "\"" + m.0 + "\":" + RenderValue(m.1)
  }

  /** The members joined by commas: empty only for no members, else opening with the first key's quote. */
  function RenderMembers(ms: seq<(string, JsonValue)>): (t: string)
    ensures t == [] <==> ms == []
    ensures ms != [] ==> t[0] == '"'
  {
    if ms == [] then ""
    else if |ms| == 1 then RenderMember(ms[0])
    else RenderMember(ms[0]) + "," + RenderMembers(ms[1..])
  }

  /** The condition the snapshot writes for canOpen and, identically, for canReveal. */
  predicate CanOpen(r: Record): (b: bool)
    ensures b ==> IsTerminal(r.status) && r.path != []
  {
    r.status == Completed && r.path != []
  }

  /** The members of one record object, in the order they are written. */
  function RecordMembers(r: Record): (ms: seq<(string, JsonValue)>)
    ensures |ms| == 12
    ensures DistinctKeys(ms)
  {
    [("id", JNum(r.id)),
     ("url", JStr(r.url)),
     ("filename", JStr(r.displayName)),
     ("path", JStr(r.path)),
     ("status", JStr(StatusToString(r.status))),
     ("received", JNum(r.receivedBytes)),
     ("total", JNum(r.expectedBytes)),
     ("canOpen", JBool(CanOpen(r))),
     ("canReveal", JBool(CanOpen(r))),
     ("startedAt", JNum(r.startedAt)),
     ("finishedAt", JNum(r.finishedAt)),
     ("error", JStr(r.error))]
  }

  /** One record as a JSON object: its members between braces. */
  function RecordJson(r: Record): (j: string)
    ensures |j| >= 2 && j[0] == '{' && j[|j| - 1] == '}'
  {
    "{" + RenderMembers(RecordMembers(r)) + "}"
  }

  /** No key is written twice, so every member is the one a reader of the object finds. */
  predicate DistinctKeys(ms: seq<(string, JsonValue)>) {
    forall i, j :: 0 <= i < j < |ms| ==> ms[i].0 != ms[j].0
  }

  /** The first value stored under a key. */
  function Lookup(ms: seq<(string, JsonValue)>, key: string): Option<JsonValue> {
    if ms == [] then None
    else if ms[0].0 == key then Some(ms[0].1)
    else Lookup(ms[1..], key)
  }

  /** A key found at index i and at no earlier index is what Lookup returns. */
  lemma {:induction false} LookupAt(ms: seq<(string, JsonValue)>, key: string, i: nat)
    requires i < |ms| && ms[i].0 == key
    requires forall j :: 0 <= j < i ==> ms[j].0 != key
    ensures Lookup(ms, key) == Some(ms[i].1)
  {
    if i > 0 {
      LookupAt(ms[1..], key, i - 1);
    }
  }

  /** canReveal carries exactly the canOpen value: completed with a non-empty path. */
  lemma RevealFlagIsOpenFlag(r: Record)
    ensures Lookup(RecordMembers(r), "canOpen") == Some(JBool(r.status == Completed && r.path != []))
    ensures Lookup(RecordMembers(r), "canReveal") == Lookup(RecordMembers(r), "canOpen")
  {
    var ms := RecordMembers(r);
    forall j | 0 <= j < 8
      ensures ms[j].0 != "canOpen" || j == 7
      ensures ms[j].0 != "canReveal"
    {
      if j == 0 {} else if j == 1 {} else if j == 2 {} else if j == 3 {}
      else if j == 4 {} else if j == 5 {} else if j == 6 {} else {}
    }
    LookupAt(ms, "canOpen", 7);
    LookupAt(ms, "canReveal", 8);
  }

  /** The string members hold the record's own text, so reading them back recovers the record's fields. */
  lemma RecordStringsRecoverable(r: Record)
    ensures Lookup(RecordMembers(r), "url") == Some(JStr(r.url))
    ensures Lookup(RecordMembers(r), "status") == Some(JStr(StatusToString(r.status)))
    ensures Unescape(Escaped(r.url)) == r.url
    ensures StatusFromString(StatusToString(r.status)) == Some(r.status)
  {
    var ms := RecordMembers(r);
    forall j | 0 <= j < 4
      ensures ms[j].0 != "status"
    {
      if j == 0 {} else if j == 1 {} else if j == 2 {} else {}
    }
    LookupAt(ms, "status", 4);
    EscapedRoundTrip(r.url);
    StatusRoundTrip(r.status);
  }

  // ----- Descending id order -----

  /** m is in s and no element of s is larger. */
  predicate IsMaxOf(m: nat, s: set<nat>) {
    m in s && forall k :: k in s ==> k <= m
  }

  /** The largest element of a non-empty set of ids. */
  ghost function Max(s: set<nat>): (m: nat)
    requires s != {}
    ensures IsMaxOf(m, s)
  {
    var x :| x in s;
    var rest := s - {x};
    if rest == {} then
      assert forall k :: k in s ==> k == x || k in rest;
      x
    else
      var y := Max(rest);
      assert forall k :: k in s ==> k == x || k in rest;
      if x < y then y else x
  }

  /** The ids of a set, largest first: the reverse iteration order of an ordered map. */
  ghost function DescendingIds(s: set<nat>): (ids: seq<nat>)
    ensures ids == [] <==> s == {}
    decreases |s|
  {
    if s == {} then [] else [Max(s)] + DescendingIds(s - {Max(s)})
  }

  /** The listing holds exactly the ids of the set, each once. */
  lemma {:induction false} DescendingIdsMembers(s: set<nat>)
    ensures |DescendingIds(s)| == |s|
    ensures forall k :: k in s <==> k in DescendingIds(s)
    decreases |s|
  {
    if s != {} {
      var m := Max(s);
      var rest := s - {m};
      DescendingIdsMembers(rest);
      assert DescendingIds(s) == [m] + DescendingIds(rest);
      assert forall k :: k in s <==> k == m || k in rest;
    }
  }

  /** The listing strictly decreases: the largest id comes first. */
  lemma {:induction false} DescendingIdsSorted(s: set<nat>)
    ensures StrictlyDecreasing(DescendingIds(s))
    decreases |s|
  {
    if s != {} {
      var m := Max(s);
      var rest := s - {m};
      DescendingIdsSorted(rest);
      ListingBelow(rest, m);
      ConsDecreasing(m, DescendingIds(rest));
    }
  }

  /** Every id of the listing of a set of ids below m is below m. */
  lemma ListingBelow(rest: set<nat>, m: nat)
    requires forall k :: k in rest ==> k < m
    ensures forall j :: 0 <= j < |DescendingIds(rest)| ==> DescendingIds(rest)[j] < m
  {
    DescendingIdsMembers(rest);
  }

  predicate StrictlyDecreasing(ids: seq<nat>) {
    forall i, j :: 0 <= i < j < |ids| ==> ids[i] > ids[j]
  }

  /** A larger id in front of a decreasing listing keeps it decreasing. */
  lemma ConsDecreasing(m: nat, tail: seq<nat>)
    requires StrictlyDecreasing(tail)
    requires forall j :: 0 <= j < |tail| ==> tail[j] < m
    ensures StrictlyDecreasing([m] + tail)
  {
    var ids := [m] + tail;
    forall i, j | 0 <= i < j < |ids|
      ensures ids[i] > ids[j]
    {
      assert ids[j] == tail[j - 1];
      if i > 0 {
        assert ids[i] == tail[i - 1];
      }
    }
  }

  /** The items joined by commas, in the order of ids. */
  function ItemsJson(ids: seq<nat>, records: map<nat, Record>): (items: string)
    requires forall k :: k in ids ==> k in records
    ensures items == [] <==> ids == []
    ensures ids != [] ==> items[0] == '{' && items[|items| - 1] == '}'
  {
    if ids == [] then ""
    else if |ids| == 1 then RecordJson(records[ids[0]])
    else ItemsJson(ids[..|ids| - 1], records) + "," + RecordJson(records[ids[|ids| - 1]])
  }

  /** The whole snapshot: every record once, newest id first. */
  ghost function SnapshotJson(records: map<nat, Record>): (json: string)
    ensures |json| >= 12 && json[..10] == "{\"items\":[" && json[|json| - 2..] == "]}"
    ensures json == "{\"items\":[]}" <==> records == map[]
  {
    DescendingIdsMembers(records.Keys);
    "{\"items\":[" + ItemsJson(DescendingIds(records.Keys), records) + "]}"
  }

  /** Writing one more record: a comma unless it is the first, then its object. */
  lemma ItemsJsonAppend(ids: seq<nat>, id: nat, records: map<nat, Record>)
    requires forall k :: k in ids ==> k in records
    requires id in records
    ensures ItemsJson(ids + [id], records) ==
      (if ids == [] then "" else ItemsJson(ids, records) + ",") + RecordJson(records[id])
  {
    assert (ids + [id])[..|ids|] == ids;
  }

  /** Taking the largest remaining id moves it from the rest of the listing to the part already written. */
  lemma DescendingIdsTake(all: seq<nat>, done: seq<nat>, rest: set<nat>)
    requires rest != {}
    requires all == done + DescendingIds(rest)
    ensures all == (done + [Max(rest)]) + DescendingIds(rest - {Max(rest)})
  {
    var m := Max(rest);
    var later := DescendingIds(rest - {m});
    assert DescendingIds(rest) == [m] + later;
    assert done + ([m] + later) == (done + [m]) + later;
  }

  /** The snapshot of no records is an empty list. */
  lemma EmptySnapshot()
    ensures SnapshotJson(map[]) == "{\"items\":[]}"
  {
  }

  /** The snapshot of one record is that record's object inside the list. */
  lemma SingleSnapshot(r: Record)
    ensures SnapshotJson(map[r.id := r]) == "{\"items\":[" + RecordJson(r) + "]}"
  {
    var recs := map[r.id := r];
    assert recs.Keys == {r.id};
    assert Max(recs.Keys) == r.id;
    assert recs.Keys - {r.id} == {};
    assert DescendingIds(recs.Keys) == [r.id];
  }
}
