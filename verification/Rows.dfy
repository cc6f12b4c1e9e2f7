/** What one appended row is, independently of how the store lays it out. */
module Rows {
  import opened Options

  /** A decoded JSON value: its raw bytes, and what decoding it as a string or a number gives. */
  datatype JsonVal = JsonVal(raw: string, str: Option<string>, num: Option<real>) {
    predicate Quoted() {
      |raw| > 0 && raw[0] == '"'
    }

    /** Strings are kept decoded, everything else as its raw bytes. */
    function Text(): string {
      if Quoted() && str.Some? then str.value else raw
    }
  }

  datatype Payload =
    | Json(fields: seq<(string, JsonVal)>, level: string)
    | Text(line: string, ansi: string, levelHint: string)
    | BadJson(raw: string)

  datatype Input = Input(source: nat, ts: real, payload: Payload)

  datatype Pair = Pair(key: string, val: string, isBlob: bool)

  /** A row: its texts and numbers by hot column, its other fields in order. */
  datatype Row = Row(source: nat, text: bool, strs: map<string, string>, nums: map<string, real>, tail: seq<Pair>,
                     ansi: string)
  {
    function Str(name: string): string {
      if name in strs then strs[name] else ""
    }

    function Num(name: string): Option<real> {
      if name in nums then Some(nums[name]) else None
    }

    /** The same row with one text replaced; the empty text is no text. */
    function WithStr(name: string, s: string): (r: Row)
      ensures r.Str(name) == s
      ensures forall m :: m != name ==> r.Str(m) == Str(m)
      ensures forall m :: r.Num(m) == Num(m)
    {
      this.(strs := if s == "" then strs - {name} else strs[name := s])
    }

    /** The same row without what it shows in some columns. */
    function Dropped(names: set<string>): Row {
      this.(strs := strs - names, nums := nums - names)
    }

    lemma DroppedOneMore(names: set<string>, name: string)
      ensures Dropped(names).Without(name) == Dropped(names + {name})
      ensures Dropped({}) == this
      ensures strs.Keys <= names && nums.Keys <= names ==> Dropped(names) == this.(strs := map[], nums := map[])
    {
      assert (strs - names) - {name} == strs - (names + {name});
      assert (nums - names) - {name} == nums - (names + {name});
      assert strs - {} == strs && nums - {} == nums;
    }

    /** The same row without what it shows in one column. */
    function Without(name: string): (r: Row)
      ensures r.Str(name) == "" && r.Num(name) == None
      ensures forall m :: m != name ==> r.Str(m) == Str(m) && r.Num(m) == Num(m)
    {
      this.(strs := strs - {name}, nums := nums - {name})
    }
  }

  const NO_ROW := Row(0, false, map[], map[], [], "")

  const LARGE: nat := 256
  const COUNTED_KEYS: nat := 1024

  /** Where a store routes fields: the hot columns (true for numeric ones), how often each cold key
      was seen, and the number of JSON rows so far. */
  datatype Routing = Routing(hot: map<string, bool>, counts: map<string, nat>, seen: nat) {
    function Counted(key: string): Routing {
      if key in counts then this.(counts := counts[key := counts[key] + 1])
      else if |counts| < COUNTED_KEYS then this.(counts := counts[key := 1])
      else this
    }

    function Count(key: string): nat {
      if key in counts then counts[key] else 0
    }

    /** Often enough: at least 64 rows, 32 occurrences and half of the rows. */
    predicate Promotes(key: string) {
      seen >= 64 && Count(key) * 100 >= seen * 50 && Count(key) >= 32
    }
  }

  function TailPair(key: string, v: JsonVal): (p: Pair)
    ensures p.key == key
  {
    if |v.raw| >= LARGE then Pair(key, v.raw, true)
    else if v.Quoted() then Pair(key, v.Text(), false)
    else Pair(key, v.raw, true)
  }

  /** One field of a row, and what it does to the routing. */
  function IngestField(row: Row, rt: Routing, key: string, v: JsonVal): (Row, Routing) {
    if key == "ts" && v.num.Some? then
      (row.(nums := row.nums[key := v.num.value]), rt)
    else if key in rt.hot then
      (ToColumn(row, rt, key, v), rt)
    else
      var rt' := rt.Counted(key);
      if rt'.Promotes(key) then (row.WithStr(key, v.Text()), rt'.(hot := rt'.hot[key := false]))
      else (row.(tail := row.tail + [TailPair(key, v)]), rt')
  }

  function ToColumn(row: Row, rt: Routing, key: string, v: JsonVal): Row
    requires key in rt.hot
  {
    if !rt.hot[key] then row.WithStr(key, v.Text())
    else if v.num.Some? then row.(nums := row.nums[key := v.num.value])
    else row
  }

  function IngestFields(row: Row, rt: Routing, fields: seq<(string, JsonVal)>): (Row, Routing)
    decreases |fields|
  {
    if fields == [] then (row, rt)
    else
      var (row', rt') := IngestField(row, rt, fields[0].0, fields[0].1);
      IngestFields(row', rt', fields[1..])
  }

  /** A row before its payload is stored; `now` is the clock. */
  function NewRow(inp: Input, now: real): Row {
    NO_ROW.(source := inp.source, nums := map["ts" := if inp.ts == 0.0 then now else inp.ts])
  }

  /** The row that an append writes, and the routing it leaves. */
  function AppendedRow(rt: Routing, inp: Input, now: real): (Row, Routing) {
    Filled(NewRow(inp, now), rt, inp.payload)
  }

  function Filled(row: Row, rt: Routing, payload: Payload): (Row, Routing) {
    match payload
    case Json(fields, level) =>
      var (row', rt') := IngestFields(row, rt, fields);
      (if level == "" then row' else row'.WithStr("level", level), rt'.(seen := rt'.seen + 1))
    case Text(line, ansi, levelHint) =>
      (TextRow(row, line, ansi, levelHint), rt)
    case BadJson(raw) =>
      (TextRow(row, raw, "", ""), rt)
  }

  function TextRow(row: Row, line: string, ansi: string, levelHint: string): Row {
    var row' := row.(text := true, ansi := ansi).WithStr("msg", line);
    if levelHint == "" then row' else row'.WithStr("level", levelHint)
  }

  predicate DistinctKeys(fields: seq<(string, JsonVal)>) {
    forall i, j :: 0 <= i < j < |fields| ==> fields[i].0 != fields[j].0
  }

  lemma BlankRow(row: Row)
    requires row.strs == map[]
    ensures forall m :: row.Str(m) == ""
  {
  }

  /** What happens to a key that is not hot. */
  lemma ColdField(row: Row, rt: Routing, key: string, v: JsonVal)
    requires key !in rt.hot && key != "ts"
    ensures IngestField(row, rt, key, v)
         == if rt.Counted(key).Promotes(key)
            then (row.WithStr(key, v.Text()), rt.Counted(key).(hot := rt.hot[key := false]))
            else (row.(tail := row.tail + [TailPair(key, v)]), rt.Counted(key))
  {
  }

  /** A field changes what the row shows for its own key only, and hot columns stay hot. */
  lemma IngestFieldFrame(row: Row, rt: Routing, key: string, v: JsonVal)
    ensures var (row', rt') := IngestField(row, rt, key, v);
            && (forall m :: m != key ==> row'.Str(m) == row.Str(m) && row'.Num(m) == row.Num(m))
            && rt.hot.Keys <= rt'.hot.Keys && row'.ansi == row.ansi
  {
  }

  lemma {:induction false} IngestFieldsHot(row: Row, rt: Routing, fields: seq<(string, JsonVal)>)
    ensures rt.hot.Keys <= IngestFields(row, rt, fields).1.hot.Keys
    ensures IngestFields(row, rt, fields).0.ansi == row.ansi
    decreases |fields|
  {
    if fields != [] {
      IngestFieldFrame(row, rt, fields[0].0, fields[0].1);
      var (row', rt') := IngestField(row, rt, fields[0].0, fields[0].1);
      IngestFieldsHot(row', rt', fields[1..]);
    }
  }

  /** One value of the wire form: an encoded string, or JSON bytes as they came. */
  datatype FieldVal = Quoted(text: string) | RawJson(bytes: string)

  /** The wire form of a row. */
  datatype View = View(seqNo: nat, ts: real, source: nat, level: string, service: string, msg: string,
                       fields: map<string, FieldVal>, ansi: string, text: bool)

  /** The columns that the wire form shows outside its fields. */
  const OWN := {"ts", "level", "service", "msg"}

  function HotFields(row: Row, names: set<string>): map<string, FieldVal> {
    map n | n in names && n !in OWN && row.Str(n) != "" :: Quoted(row.Str(n))
  }

  function WithPair(fields: map<string, FieldVal>, p: Pair): map<string, FieldVal> {
    if p.key == "" then fields else fields[p.key := if p.isBlob then RawJson(p.val) else Quoted(p.val)]
  }

  function WithTail(fields: map<string, FieldVal>, tail: seq<Pair>): map<string, FieldVal> {
    if tail == [] then fields else WithPair(WithTail(fields, tail[..|tail| - 1]), tail[|tail| - 1])
  }

  function ViewOf(seqNo: nat, row: Row): View {
    View(seqNo, row.Num("ts").UnwrapOr(0.0), row.source, row.Str("level"), row.Str("service"), row.Str("msg"),
         WithTail(HotFields(row, row.strs.Keys), row.tail), if row.text then row.ansi else "", row.text)
  }

  /** The row holds the value of the key in exactly one place. */
  ghost predicate Kept(row: Row, key: string, v: JsonVal) {
    if key == "ts" then v.num.Some? ==> row.Num("ts") == v.num
    else if row.Str(key) == v.Text() && NoPair(row.tail, key) then true
    else row.Str(key) == "" && TailPair(key, v) in row.tail && OnlyPair(row.tail, TailPair(key, v))
  }

  ghost predicate NoPair(tail: seq<Pair>, key: string) {
    forall p :: p in tail ==> p.key != key
  }

  ghost predicate OnlyPair(tail: seq<Pair>, p: Pair) {
    forall q :: q in tail && q.key == p.key ==> q == p
  }

  /** The only numeric column is "ts". */
  ghost predicate TsOnly(rt: Routing) {
    "ts" in rt.hot && forall n :: n in rt.hot ==> rt.hot[n] == (n == "ts")
  }

  lemma FieldKept(row: Row, rt: Routing, key: string, v: JsonVal)
    requires TsOnly(rt) && row.Str(key) == "" && NoPair(row.tail, key)
    ensures var (row', rt') := IngestField(row, rt, key, v); Kept(row', key, v) && TsOnly(rt')
  {
  }

  lemma OthersKept(row: Row, rt: Routing, key: string, v: JsonVal, k: string, w: JsonVal)
    requires TsOnly(rt) && k != key
    ensures var row' := IngestField(row, rt, key, v).0;
            && (Kept(row, k, w) ==> Kept(row', k, w))
            && (row.Str(k) == "" && NoPair(row.tail, k) ==> row'.Str(k) == "" && NoPair(row'.tail, k))
  {
  }

  /** A decoded object goes into the row whole: every field is kept, whatever is routed where. */
  lemma {:induction false} FieldsKept(row: Row, rt: Routing, fields: seq<(string, JsonVal)>)
    requires TsOnly(rt) && DistinctKeys(fields)
    requires forall i :: 0 <= i < |fields| ==> row.Str(fields[i].0) == "" && NoPair(row.tail, fields[i].0)
    ensures forall i :: 0 <= i < |fields| ==> Kept(IngestFields(row, rt, fields).0, fields[i].0, fields[i].1)
    ensures forall k, w :: Kept(row, k, w) && (forall i :: 0 <= i < |fields| ==> fields[i].0 != k) ==>
                             Kept(IngestFields(row, rt, fields).0, k, w)
    decreases |fields|
  {
    if fields != [] {
      var (row', rt') := IngestField(row, rt, fields[0].0, fields[0].1);
      FieldKept(row, rt, fields[0].0, fields[0].1);
      forall i | 1 <= i < |fields| ensures row'.Str(fields[i].0) == "" && NoPair(row'.tail, fields[i].0) {
        OthersKept(row, rt, fields[0].0, fields[0].1, fields[i].0, fields[i].1);
      }
      FieldsKept(row', rt', fields[1..]);
      forall k, w | Kept(row, k, w) && (forall i :: 0 <= i < |fields| ==> fields[i].0 != k)
        ensures Kept(IngestFields(row, rt, fields).0, k, w)
      {
        OthersKept(row, rt, fields[0].0, fields[0].1, k, w);
      }
    }
  }

  lemma {:induction false} TailShows(fields: map<string, FieldVal>, tail: seq<Pair>, key: string)
    ensures NoPair(tail, key) ==>
              (key in WithTail(fields, tail) <==> key in fields) && (key in fields ==>
                  WithTail(fields, tail)[key] == fields[key])
    ensures forall p: Pair :: p.key == key != "" && p in tail && OnlyPair(tail, p) ==>
              key in WithTail(fields, tail) && WithTail(fields, tail)[key] == if p.isBlob then RawJson(p.val)
                  else Quoted(p.val)
    decreases |tail|
  {
    if tail != [] {
      var n := |tail| - 1;
      TailShows(fields, tail[..n], key);
      assert forall q :: q in tail[..n] ==> q in tail;
      forall p: Pair | p.key == key != "" && p in tail && OnlyPair(tail, p)
        ensures key in WithTail(fields, tail) && WithTail(fields, tail)[key] == if p.isBlob then RawJson(p.val)
            else Quoted(p.val)
      {
        if tail[n].key == key {
          assert tail[n] == p;
        } else {
          assert p in tail[..n];
        }
      }
    }
  }

  /** A value is shown as its bytes or as its text. */
  ghost predicate Faithful(shown: FieldVal, v: JsonVal) {
    shown == RawJson(v.raw) || shown == Quoted(v.Text())
  }

  /** What a client reads for one field of the object that was appended. */
  ghost predicate Readable(view: View, key: string, v: JsonVal, level: string) {
    if key == "ts" then v.num.Some? ==> view.ts == v.num.value
    else if key == "level" then view.level == if level == "" then v.Text() else level
    else if key == "service" then view.service == v.Text()
    else if key == "msg" then view.msg == v.Text()
    else if key in view.fields then Faithful(view.fields[key], v)
    else v.Text() == ""
  }

  /** Nothing is lost between an append and a read: every named field of the object can be read back. */
  lemma ObjectReadable(rt: Routing, inp: Input, now: real, seqNo: nat, i: nat)
    requires TsOnly(rt) && "level" in rt.hot && "service" in rt.hot && "msg" in rt.hot
    requires inp.payload.Json? && DistinctKeys(inp.payload.fields) && i < |inp.payload.fields|
    ensures inp.payload.fields[i].0 != "" ==>
              Readable(ViewOf(seqNo, AppendedRow(rt, inp, now).0), inp.payload.fields[i].0, inp.payload.fields[i].1,
                       inp.payload.level)
  {
    var (fields, level) := (inp.payload.fields, inp.payload.level);
    var (key, v) := fields[i];
    var row0 := NewRow(inp, now);
    var row1 := IngestFields(row0, rt, fields).0;
    var row := AppendedRow(rt, inp, now).0;
    FieldsKept(row0, rt, fields);
    assert Kept(row1, key, v);
    if key in rt.hot {
      HotStaysOut(row0, rt, fields, key);
    }
    if key !in OWN {
      HotFieldsOf(row, key);
    }
    TailShows(HotFields(row, row.strs.Keys), row.tail, key);
  }

  /** The payload has a number for "ts", which replaces the timestamp of the input. */
  predicate SetsTime(payload: Payload) {
    && payload.Json?
    && exists i :: 0 <= i < |payload.fields| && payload.fields[i].0 == "ts" && payload.fields[i].1.num.Some?
  }

  /** What a client reads of a line of text: the line, its level and its bytes, and no fields. */
  lemma TextReadable(rt: Routing, inp: Input, now: real, seqNo: nat)
    requires !inp.payload.Json?
    ensures var view := ViewOf(seqNo, AppendedRow(rt, inp, now).0);
            && view.text && view.fields == map[] && view.service == ""
            && view.msg == (if inp.payload.Text? then inp.payload.line else inp.payload.raw)
            && view.level == (if inp.payload.Text? then inp.payload.levelHint else "")
            && view.ansi == (if inp.payload.Text? then inp.payload.ansi else "")
  {
    var row0 := NewRow(inp, now);
    BlankRow(row0);
    var row := AppendedRow(rt, inp, now).0;
    assert row.tail == [] && forall n :: row.Str(n) != "" ==> n in OWN;
    assert HotFields(row, row.strs.Keys) == map[];
  }

  /** What a client reads of every row: its number, its source, and its time unless the payload sets one;
      objects are no text and have no bytes. */
  lemma HeaderReadable(rt: Routing, inp: Input, now: real, seqNo: nat)
    ensures var view := ViewOf(seqNo, AppendedRow(rt, inp, now).0);
            && view.seqNo == seqNo && view.source == inp.source
            && (!SetsTime(inp.payload) ==> view.ts == if inp.ts == 0.0 then now else inp.ts)
            && (inp.payload.Json? ==> !view.text && view.ansi == "")
  {
    if inp.payload.Json? {
      FieldsHeader(NewRow(inp, now), rt, inp.payload.fields);
    }
  }

  lemma {:induction false} FieldsHeader(row: Row, rt: Routing, fields: seq<(string, JsonVal)>)
    ensures var row' := IngestFields(row, rt, fields).0;
            && row'.source == row.source && row'.text == row.text
            && ((forall i :: 0 <= i < |fields| && fields[i].0 == "ts" ==> fields[i].1.num.None?) ==>
                  row'.Num("ts") == row.Num("ts"))
    decreases |fields|
  {
    if fields != [] {
      var (row', rt') := IngestField(row, rt, fields[0].0, fields[0].1);
      FieldsHeader(row', rt', fields[1..]);
    }
  }

  ghost predicate Given(fields: seq<(string, JsonVal)>, key: string) {
    exists i :: 0 <= i < |fields| && fields[i].0 == key
  }

  lemma {:induction false} FieldsGiven(row: Row, rt: Routing, fields: seq<(string, JsonVal)>, key: string)
    requires !Given(fields, key)
    ensures IngestFields(row, rt, fields).0.Str(key) == row.Str(key)
    ensures NoPair(row.tail, key) ==> NoPair(IngestFields(row, rt, fields).0.tail, key)
    decreases |fields|
  {
    if fields != [] {
      var (row', rt') := IngestField(row, rt, fields[0].0, fields[0].1);
      assert fields[0].0 != key;
      forall i | 0 <= i < |fields[1..]| ensures fields[1..][i].0 != key {
        assert fields[1..][i] == fields[i + 1];
      }
      FieldsGiven(row', rt', fields[1..], key);
    }
  }

  /** Nothing is invented: what a client reads of an object was in the object. */
  lemma NothingInvented(rt: Routing, inp: Input, now: real, seqNo: nat, key: string)
    requires inp.payload.Json? && !Given(inp.payload.fields, key)
    ensures var view := ViewOf(seqNo, AppendedRow(rt, inp, now).0);
            && key !in view.fields
            && (key == "service" ==> view.service == "") && (key == "msg" ==> view.msg == "")
            && (key == "level" ==> view.level == inp.payload.level)
  {
    var row0 := NewRow(inp, now);
    BlankRow(row0);
    FieldsGiven(row0, rt, inp.payload.fields, key);
    var row := AppendedRow(rt, inp, now).0;
    if key !in OWN {
      HotFieldsOf(row, key);
    }
    TailShows(HotFields(row, row.strs.Keys), row.tail, key);
  }

  /** One occurrence of a cold key counts once, unless 1024 other keys are counted already. */
  lemma CountsUp(rt: Routing, key: string, other: string)
    ensures rt.Counted(key).Count(key) == rt.Count(key) + if key in rt.counts || |rt.counts| < 1024 then 1 else 0
    ensures other != key ==> rt.Counted(key).Count(other) == rt.Count(other)
    ensures rt.Counted(key).hot == rt.hot && rt.Counted(key).seen == rt.seen
  {
  }

  /** A cold key becomes a column at 64 rows, 32 occurrences and half of the rows. */
  lemma PromotesIff(rt: Routing, key: string)
    ensures rt.Promotes(key) <==> rt.seen >= 64 && rt.Count(key) >= 32 && 2 * rt.Count(key) >= rt.seen
  {
  }

  lemma HotFieldsGrow(row: Row, names: set<string>, name: string)
    ensures HotFields(row, names + {name})
         == if name in OWN || row.Str(name) == "" then HotFields(row, names)
            else HotFields(row, names)[name := Quoted(row.Str(name))]
    ensures HotFields(row, {}) == map[]
  {
  }

  lemma HotFieldsWithin(row: Row, names: set<string>)
    requires row.strs.Keys <= names
    ensures HotFields(row, names) == HotFields(row, row.strs.Keys)
  {
  }

  lemma HotFieldsOf(row: Row, key: string)
    requires key !in OWN
    ensures key in HotFields(row, row.strs.Keys) <==> row.Str(key) != ""
  {
  }

  /** The fields of hot columns never go to the tail. */
  lemma {:induction false} HotStaysOut(row: Row, rt: Routing, fields: seq<(string, JsonVal)>, key: string)
    requires key in rt.hot && NoPair(row.tail, key)
    ensures NoPair(IngestFields(row, rt, fields).0.tail, key)
    decreases |fields|
  {
    if fields != [] {
      var (row', rt') := IngestField(row, rt, fields[0].0, fields[0].1);
      HotStaysOut(row', rt', fields[1..], key);
    }
  }
}
