/** InterruptedTransferStore: records as JSON under "interrupted_<id>" in shared preferences, and the list of ids as
    one comma-joined string. Steps on the preferences. */
module InterruptedStore {
  import opened Bytes

  // ----- the comma-joined index -----

  /** Kotlin's Char.isWhitespace. */
  predicate Space(c: char) {
    var code := c as int;
    9 <= code <= 13 || 28 <= code <= 32 || code == 0xA0 || code == 0x1680 || 0x2000 <= code <= 0x200A
    || code == 0x2028 || code == 0x2029 || code == 0x202F || code == 0x205F || code == 0x3000
  }

  predicate Blank(s: string) {
    forall i :: 0 <= i < |s| ==> Space(s[i])
  }

  function Join(xs: seq<string>): string {
    if xs == [] then "" else if |xs| == 1 then xs[0] else xs[0] + "," + Join(xs[1..])
  }

  function Split(s: string): (pieces: seq<string>)
    ensures pieces != []
  {
    if s == "" then [""]
    else
      var rest := Split(s[1..]);
      if s[0] == ',' then [""] + rest else [[s[0]] + rest[0]] + rest[1..]
  }

  /** filter { it.isNotBlank() }.toSet(), a set that keeps its order. */
  function NonBlankOnce(pieces: seq<string>): seq<string> {
    if pieces == [] then []
    else
      var before, last := NonBlankOnce(pieces[..|pieces| - 1]), pieces[|pieces| - 1];
      if Blank(last) || last in before then before else before + [last]
  }

  function DecodeIndex(raw: string): seq<string> {
    if Blank(raw) then [] else NonBlankOnce(Split(raw))
  }

  /** What an id must be like to survive in the index; every UUID is. */
  predicate GoodId(id: string) {
    !Blank(id) && ',' !in id
  }

  lemma {:induction false} SplitPlain(a: string, rest: string)
    requires ',' !in a
    ensures Split(a) == [a]
    ensures Split(a + "," + rest) == [a] + Split(rest)
  {
    if a == "" {
      assert a + "," + rest == [','] + rest;
    } else {
      SplitPlain(a[1..], rest);
      assert (a + "," + rest)[1..] == a[1..] + "," + rest;
      assert a == [a[0]] + a[1..];
    }
  }

  lemma {:induction false} SplitJoin(xs: seq<string>)
    requires xs != [] && forall i :: 0 <= i < |xs| ==> ',' !in xs[i]
    ensures Split(Join(xs)) == xs
  {
    SplitPlain(xs[0], Join(xs[1..]));
    if |xs| > 1 {
      SplitJoin(xs[1..]);
    }
  }

  predicate Once(xs: seq<string>) {
    forall i, j :: 0 <= i < j < |xs| ==> xs[i] != xs[j]
  }

  lemma {:induction false} NonBlankOnceId(xs: seq<string>)
    requires Once(xs) && forall i :: 0 <= i < |xs| ==> !Blank(xs[i])
    ensures NonBlankOnce(xs) == xs
  {
    if xs != [] {
      NonBlankOnceId(xs[..|xs| - 1]);
      assert xs == xs[..|xs| - 1] + [xs[|xs| - 1]];
    }
  }

  /** Saving and loading an index of good, distinct ids gives it back. */
  lemma IndexRoundTrip(xs: seq<string>)
    requires Once(xs) && forall i :: 0 <= i < |xs| ==> GoodId(xs[i])
    ensures DecodeIndex(Join(xs)) == xs
  {
    if xs != [] {
      SplitJoin(xs);
      NonBlankOnceId(xs);
      JoinNotBlank(xs);
    }
  }

  lemma JoinNotBlank(xs: seq<string>)
    requires xs != [] && !Blank(xs[0])
    ensures !Blank(Join(xs))
  {
    var i :| 0 <= i < |xs[0]| && !Space(xs[0][i]);
    assert Join(xs)[i] == xs[0][i];
  }

  lemma {:induction false} PiecesHaveNoComma(s: string)
    ensures forall p :: p in Split(s) ==> ',' !in p
  {
    if s != "" {
      PiecesHaveNoComma(s[1..]);
      var rest := Split(s[1..]);
      assert rest[0] in rest && forall p :: p in rest[1..] ==> p in rest;
    }
  }

  lemma {:induction false} OnceMembers(pieces: seq<string>)
    ensures forall p :: p in NonBlankOnce(pieces) ==> p in pieces && !Blank(p)
    ensures Once(NonBlankOnce(pieces))
  {
    if pieces != [] {
      OnceMembers(pieces[..|pieces| - 1]);
    }
  }

  lemma HeadOfConcat<T>(a: seq<T>, b: seq<T>)
    requires a != []
    ensures (a + b)[0] == a[0] && (a + b)[1..] == a[1..] + b
  {
  }

  lemma PrependAssociates<T>(x: T, a: seq<T>, b: seq<T>)
    ensures [x] + (a + b) == ([x] + a) + b
  {
  }

  lemma {:induction false} SplitConcat(s: string, t: string)
    ensures Split(s + "," + t) == Split(s) + Split(t)
  {
    if s == "" {
      assert s + "," + t == [','] + t;
    } else {
      SplitConcat(s[1..], t);
      var u := s + "," + t;
      assert u[1..] == s[1..] + "," + t && u[0] == s[0];
      var rest := Split(s[1..]);
      HeadOfConcat(rest, Split(t));
      if s[0] == ',' {
        PrependAssociates("", rest, Split(t));
      } else {
        PrependAssociates([s[0]] + rest[0], rest[1..], Split(t));
      }
    }
  }

  /** A good id of the index is a piece of the string it is saved as. */
  lemma {:induction false} GoodIdIsAPiece(xs: seq<string>, i: nat)
    requires i < |xs| && ',' !in xs[i]
    ensures xs[i] in Split(Join(xs))
  {
    if i == 0 {
      SplitPlain(xs[0], Join(xs[1..]));
    } else {
      SplitConcat(xs[0], Join(xs[1..]));
      GoodIdIsAPiece(xs[1..], i - 1);
    }
  }

  lemma {:induction false} PiecesOfBlank(s: string)
    requires Blank(s)
    ensures forall p :: p in Split(s) ==> Blank(p)
  {
    if s != "" {
      PiecesOfBlank(s[1..]);
      var rest := Split(s[1..]);
      assert rest[0] in rest && s[0] != ',';
      assert forall p :: p in Split(s) ==> p == [s[0]] + rest[0] || p in rest;
    }
  }

  lemma {:induction false} OnceKeepsNonBlank(pieces: seq<string>, p: string)
    requires p in pieces && !Blank(p)
    ensures p in NonBlankOnce(pieces)
  {
    assert pieces == pieces[..|pieces| - 1] + [pieces[|pieces| - 1]];
    if p != pieces[|pieces| - 1] {
      OnceKeepsNonBlank(pieces[..|pieces| - 1], p);
    }
  }

  /** Exactly the good ids survive: of any index that is saved, an id is listed again if and only if it is not blank
      and has no comma. */
  lemma SurvivesIffGood(xs: seq<string>, id: string)
    requires id in xs
    ensures id in DecodeIndex(Join(xs)) <==> GoodId(id)
  {
    var raw := Join(xs);
    PiecesHaveNoComma(raw);
    OnceMembers(Split(raw));
    if GoodId(id) {
      var i :| 0 <= i < |xs| && xs[i] == id;
      GoodIdIsAPiece(xs, i);
      if Blank(raw) {
        PiecesOfBlank(raw);
      }
      OnceKeepsNonBlank(Split(raw), id);
    }
  }

  // ----- the store -----

  datatype Record = Record(transferId: string, senderIdentity: string, expireAt: int, fields: string)

  /** org.json, as far as records go. */
  datatype Json = Json(write: Record -> string, parse: string -> Option<Record>)

  ghost predicate RoundTrips(j: Json) {
    forall r: Record :: j.parse(j.write(r)) == Some(r)
  }

  type Prefs = map<string, string>

  const KEY_INDEX := "index"

  function Key(id: string): string {
    "interrupted_" + id
  }

  lemma KeysDiffer(a: string, b: string)
    ensures Key(a) != KEY_INDEX
    ensures Key(a) == Key(b) <==> a == b
  {
    assert Key(a)[2] == 't' && KEY_INDEX[2] == 'd';
    assert Key(a)[12..] == a && Key(b)[12..] == b;
  }

  function LoadIndex(p: Prefs): seq<string> {
    if KEY_INDEX in p then DecodeIndex(p[KEY_INDEX]) else []
  }

  function SaveIndex(p: Prefs, ids: seq<string>): Prefs {
    p[KEY_INDEX := Join(ids)]
  }

  function Minus(ids: seq<string>, gone: seq<string>): seq<string> {
    if ids == [] then []
    else
      var before, last := Minus(ids[..|ids| - 1], gone), ids[|ids| - 1];
      if last in gone then before else before + [last]
  }

  predicate Expired(r: Record, now: int) {
    now > r.expireAt
  }

  function Save(j: Json, p: Prefs, r: Record): Prefs {
    var q := p[Key(r.transferId) := j.write(r)];
    var ids := LoadIndex(q);
    if r.transferId in ids then q else SaveIndex(q, ids + [r.transferId])
  }

  function Delete(p: Prefs, id: string): Prefs {
    var q := p - {Key(id)};
    var ids := LoadIndex(q);
    if id in ids then SaveIndex(q, Minus(ids, [id])) else q
  }

  function KeysOf(ids: seq<string>): set<string> {
    set i | 0 <= i < |ids| :: Key(ids[i])
  }

  function Clear(p: Prefs): Prefs {
    (p - KeysOf(LoadIndex(p)))[KEY_INDEX := ""]
  }

  /** The record stored for an id, if there is one that parses. */
  function Stored(j: Json, p: Prefs, id: string): Option<Record> {
    if Key(id) in p then j.parse(p[Key(id)]) else None
  }

  function Get(j: Json, p: Prefs, id: string, now: int): (Prefs, Option<Record>) {
    var r := Stored(j, p, id);
    if r.Some? && Expired(r.value, now) then (Delete(p, id), None) else (p, r)
  }

  predicate Wanted(r: Record, sender: Option<string>, now: int) {
    !Expired(r, now) && (sender.None? || r.senderIdentity == sender.value)
  }

  /** The records a listing returns, in index order. */
  function Listed(j: Json, p: Prefs, ids: seq<string>, sender: Option<string>, now: int): seq<Record> {
    if ids == [] then []
    else
      var r := Stored(j, p, ids[|ids| - 1]);
      Listed(j, p, ids[..|ids| - 1], sender, now)
      + if r.Some? && Wanted(r.value, sender, now) then [r.value] else []
  }

  /** The ids to prune: unreadable or expired ones and, when asked for, those without a record. */
  function Stale(j: Json, p: Prefs, ids: seq<string>, now: int, missingToo: bool): seq<string> {
    if ids == [] then []
    else
      var id := ids[|ids| - 1];
      var stale := if Key(id) !in p then missingToo else
                   var r := Stored(j, p, id); r.None? || Expired(r.value, now);
      Stale(j, p, ids[..|ids| - 1], now, missingToo) + if stale then [id] else []
  }

  function Forget(p: Prefs, ids: seq<string>, gone: seq<string>): Prefs {
    if gone == [] then p else SaveIndex(p - KeysOf(gone), Minus(ids, gone))
  }

  function ListForSender(j: Json, p: Prefs, sender: Option<string>, now: int): (Prefs, seq<Record>) {
    var ids := LoadIndex(p);
    (Forget(p, ids, Stale(j, p, ids, now, false)), Listed(j, p, ids, sender, now))
  }

  function PruneExpired(j: Json, p: Prefs, now: int): (Prefs, nat) {
    var ids := LoadIndex(p);
    var gone := Stale(j, p, ids, now, true);
    (Forget(p, ids, gone), |gone|)
  }
}
