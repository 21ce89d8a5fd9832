/** The in-memory part of `BigArchive.patch_parameters` (big/big.py:177-253):
    requests are grouped by the key of their inner file, and for each group the
    first entry with that key has its contents decoded, patched parameter by
    parameter, re-encoded and written back over its own range when the text
    and the bytes kept their lengths. */
module Patcher {
  import opened Base
  import opened Text
  import opened Paths
  import opened IniPatch
  import opened EntryTable

  /** One patch request (big/patch.py:4-22). */
  datatype ModParameter = ModParameter(bigFile: string, innerFile: string, parameterName: string,
                                       defaultValue: string, targetValue: string, description: string)

  /** The stock request (big/patch.py:24-32). */
  const CAMERA_HEIGHT_MAX: ModParameter :=
    ModParameter("INIZH.big", "Data\\INI\\GameData.ini", "MaxCameraHeight", "1000.0", "600.0",
                 "Maximum camera height in the game.")

  function KeyOf(p: ModParameter): string
  {
    NormalizePath(p.innerFile)
  }

  /** The keys of the grouping dictionary in insertion order: each key where a
      request with it first occurs. */
  function Keys(ps: seq<ModParameter>): seq<string>
  {
    if ps == [] then []
    else
      var before := Keys(ps[..|ps| - 1]);
      if KeyOf(ps[|ps| - 1]) in before then before else before + [KeyOf(ps[|ps| - 1])]
  }

  /** The list the dictionary holds under `key`: the requests with that key,
      in request order. */
  function Filter(ps: seq<ModParameter>, key: string): (r: seq<ModParameter>)
  {
    if ps == [] then []
    else Filter(ps[..|ps| - 1], key) + (if KeyOf(ps[|ps| - 1]) == key then [ps[|ps| - 1]] else [])
  }

  /** Each key occurs once. */
  lemma {:induction false} KeysDistinct(ps: seq<ModParameter>)
    ensures forall i, j :: 0 <= i < j < |Keys(ps)| ==> Keys(ps)[i] != Keys(ps)[j]
  {
    if ps != [] {
      KeysDistinct(ps[..|ps| - 1]);
    }
  }

  /** The keys are exactly the keys of the requests. */
  lemma {:induction false} KeysOfRequests(ps: seq<ModParameter>)
    ensures forall i :: 0 <= i < |ps| ==> KeyOf(ps[i]) in Keys(ps)
    ensures forall k :: k in Keys(ps) ==> exists i :: 0 <= i < |ps| && KeyOf(ps[i]) == k
  {
    if ps != [] {
      var init := ps[..|ps| - 1];
      KeysOfRequests(init);
      forall i | 0 <= i < |ps| ensures KeyOf(ps[i]) in Keys(ps) {
        if i < |ps| - 1 {
          assert ps[i] == init[i];
        }
      }
      forall k | k in Keys(ps) ensures exists i :: 0 <= i < |ps| && KeyOf(ps[i]) == k {
        if k in Keys(init) {
          var i :| 0 <= i < |init| && KeyOf(init[i]) == k;
          assert ps[i] == init[i];
        } else {
          assert KeyOf(ps[|ps| - 1]) == k;
        }
      }
    }
  }

  /** A key has an empty list exactly when it is not a key of the dictionary. */
  lemma {:induction false} FilterEmpty(ps: seq<ModParameter>, key: string)
    ensures Filter(ps, key) == [] <==> key !in Keys(ps)
  {
    if ps != [] {
      FilterEmpty(ps[..|ps| - 1], key);
    }
  }

  /** A group holds requests with its key only, and every one of them. */
  lemma {:induction false} FilterExact(ps: seq<ModParameter>, key: string)
    ensures forall q :: q in Filter(ps, key) ==> q in ps && KeyOf(q) == key
    ensures forall i :: 0 <= i < |ps| && KeyOf(ps[i]) == key ==> ps[i] in Filter(ps, key)
  {
    if ps != [] {
      var init := ps[..|ps| - 1];
      FilterExact(init, key);
      forall q | q in Filter(ps, key) ensures q in ps && KeyOf(q) == key {
        if q in Filter(init, key) {
          assert q in init;
          var i :| 0 <= i < |init| && init[i] == q;
          assert ps[i] == q;
        }
      }
      forall i | 0 <= i < |ps| && KeyOf(ps[i]) == key ensures ps[i] in Filter(ps, key) {
        if i < |ps| - 1 {
          assert ps[i] == init[i];
        }
      }
    }
  }

  /** The dictionary after the first `i` requests: its keys in insertion
      order, and under each key the requests with that key. */
  ghost predicate GroupedUpTo(ps: seq<ModParameter>, i: nat, order: seq<string>, groups: map<string, seq<ModParameter>>)
    requires i <= |ps|
  {
    && order == Keys(ps[..i])
    && (forall k :: k in groups <==> k in order)
    && (forall k :: k in groups ==> groups[k] == Filter(ps[..i], k))
  }

  /** One `setdefault(key, []).append(p)` keeps the dictionary in step. */
  lemma GroupStep(ps: seq<ModParameter>, i: nat, order: seq<string>, groups: map<string, seq<ModParameter>>)
    requires i < |ps| && GroupedUpTo(ps, i, order, groups)
    ensures var key := KeyOf(ps[i]);
      var list := if key in groups then groups[key] else [];
      GroupedUpTo(ps, i + 1, if key in groups then order else order + [key], groups[key := list + [ps[i]]])
  {
    var key := KeyOf(ps[i]);
    var before := ps[..i];
    var after := ps[..i + 1];
    assert after[..|after| - 1] == before && after[|after| - 1] == ps[i];
    assert Keys(after) == if key in Keys(before) then Keys(before) else Keys(before) + [key];
    forall k ensures Filter(after, k) == Filter(before, k) + (if key == k then [ps[i]] else []) {
    }
    var list := if key in groups then groups[key] else [];
    var order' := if key in groups then order else order + [key];
    var groups' := groups[key := list + [ps[i]]];
    assert order' == Keys(after);
    forall k ensures k in groups' <==> k in order' {
    }
    forall k | k in groups' ensures groups'[k] == Filter(after, k) {
      if k == key {
        FilterEmpty(before, key);
        assert list == Filter(before, key);
      } else {
        assert groups'[k] == groups[k];
      }
    }
  }

  /** The grouping loop (big/big.py:198-201). `order` is the dictionary's
      insertion order. */
  method GroupByInnerFile(ps: seq<ModParameter>) returns (order: seq<string>, groups: map<string, seq<ModParameter>>)
    ensures order == Keys(ps)
    ensures forall k :: k in groups <==> k in order
    ensures forall k :: k in groups ==> groups[k] == Filter(ps, k)
  {
    order := [];
    groups := map[];
    var i := 0;
    while i < |ps|
      invariant 0 <= i <= |ps|
      invariant GroupedUpTo(ps, i, order, groups)
    {
      var p := ps[i];
      var key := KeyOf(p);
      GroupStep(ps, i, order, groups);
      var list := if key in groups then groups[key] else [];  // setdefault(key, [])
      if key !in groups {
        order := order + [key];
      }
      groups := groups[key := list + [p]];                    // .append(param)
      i := i + 1;
    }
    assert ps[..i] == ps;
  }

  /** The dictionary's items in insertion order. */
  function Items(order: seq<string>, groups: map<string, seq<ModParameter>>): (r: seq<(string, seq<ModParameter>)>)
    requires forall k :: k in order ==> k in groups
    ensures |r| == |order|
  {
    seq(|order|, i requires 0 <= i < |order| => (order[i], groups[order[i]]))
  }

  /** The grouping as a list in insertion order: each distinct key once, with
      the requests that have that key, in request order. */
  function Grouped(ps: seq<ModParameter>): (r: seq<(string, seq<ModParameter>)>)
    ensures |r| == |Keys(ps)|
  {
    seq(|Keys(ps)|, i requires 0 <= i < |Keys(ps)| => (Keys(ps)[i], Filter(ps, Keys(ps)[i])))
  }

  /** The dictionary `GroupByInnerFile` builds, read in insertion order, is
      that list. */
  lemma ItemsGrouped(ps: seq<ModParameter>, order: seq<string>, groups: map<string, seq<ModParameter>>)
    requires order == Keys(ps)
    requires forall k :: k in groups <==> k in order
    requires forall k :: k in groups ==> groups[k] == Filter(ps, k)
    ensures Items(order, groups) == Grouped(ps)
  {
  }

  /** The position of the first entry whose path has `key` as its key
      (`matching_entries[0]`, big/big.py:213-220); none when no entry has it. */
  function FirstMatch(entries: seq<Record>, key: string): (r: Option<nat>)
    ensures r.Some? ==> r.value < |entries| && NormalizePath(entries[r.value].path) == key
  {
    if entries == [] then None
    else if NormalizePath(entries[0].path) == key then Some(0)
    else match FirstMatch(entries[1..], key)
      case None => None
      case Some(i) => Some(i + 1)
  }

  /** The entry chosen is the first with the key, and none has it when none is chosen. */
  lemma {:induction false} FirstMatchLeftmost(entries: seq<Record>, key: string)
    ensures var r := FirstMatch(entries, key);
      && (r.Some? ==> forall i :: 0 <= i < r.value ==> NormalizePath(entries[i].path) != key)
      && (r.None? ==> forall i :: 0 <= i < |entries| ==> NormalizePath(entries[i].path) != key)
  {
    if entries != [] && NormalizePath(entries[0].path) != key {
      FirstMatchLeftmost(entries[1..], key);
      forall i | 0 < i < |entries| ensures entries[i] == entries[1..][i - 1] {
      }
    }
  }

  /** `file_data.decode('utf-8')`, falling back to cp1252 with replacement
      when that raises (big/big.py:227-230). */
  function DecodeContent(codec: Codec, data: seq<byte>): string
  {
    match codec.utf8(data)
    case Some(t) => t
    case None => codec.cp1252Replace(data)
  }

  /** The parameter loop (big/big.py:235-240): each request in turn patches the
      text; one whose parameter is not found leaves it as it is. The text never
      changes length, so the first length check always passes. */
  function PatchText(text: string, params: seq<ModParameter>): (r: string)
    ensures |r| == |text|
    decreases params
  {
    if params == [] then text
    else
      var next := match PatchIni(text, params[0].parameterName, params[0].targetValue)
                  case Ok(t) => t
                  case Err(_) => text;
      PatchText(next, params[1..])
  }

  /** Patching with two lists of requests is patching with the first, then
      with the second. */
  lemma {:induction false} PatchTextAppend(text: string, ps: seq<ModParameter>, qs: seq<ModParameter>)
    ensures PatchText(text, ps + qs) == PatchText(PatchText(text, ps), qs)
    decreases ps
  {
    if ps == [] {
      assert ps + qs == qs;
    } else {
      assert (ps + qs)[1..] == ps[1..] + qs;
      assert (ps + qs)[0] == ps[0];
      var next := match PatchIni(text, ps[0].parameterName, ps[0].targetValue)
                  case Ok(t) => t
                  case Err(_) => text;
      PatchTextAppend(next, ps[1..], qs);
    }
  }

  /** Requests none of whose parameters occur leave the text as it is. */
  lemma {:induction false} PatchTextUnmatched(text: string, ps: seq<ModParameter>)
    requires forall k :: 0 <= k < |ps| ==> FindParameter(text, ps[k].parameterName).None?
    ensures PatchText(text, ps) == text
    decreases ps
  {
    if ps != [] {
      assert FindParameter(text, ps[0].parameterName).None?;
      PatchTextUnmatched(text, ps[1..]);
    }
  }

  /** Where the bytes of `data` from `off` are replaced by `bytes`, which fit. */
  function Splice(data: seq<byte>, off: nat, bytes: seq<byte>): (r: seq<byte>)
    requires off + |bytes| <= |data|
    ensures |r| == |data|
    ensures forall x :: 0 <= x < |data| ==> r[x] == if off <= x < off + |bytes| then bytes[x - off] else data[x]
  {
    SpliceParts(data, off, off + |bytes|, bytes);
    data[..off] + bytes + data[off + |bytes|..]
  }

  /** The text of an entry: the bytes `archive_data[offset:offset+length]`,
      decoded (big/big.py:223-230). */
  function EntryText(data: seq<byte>, e: Record, codec: Codec): string
  {
    DecodeContent(codec, SliceClamped(data, e.offset, e.offset + e.length))
  }

  /** What one group writes (big/big.py:212-253): nothing when no entry has the
      key, when the patched text changed length or re-encodes to a byte length
      other than the entry's, or when the entry's range runs past the buffer;
      otherwise the entry's offset and the UTF-8 of the patched text. The last
      condition is the bound the array write needs; `patch_parameters` does not
      check it (see `PlanGroupAsWritten`). */
  function PlanGroup(data: seq<byte>, entries: seq<Record>, key: string, params: seq<ModParameter>, codec: Codec)
    : (r: Option<(nat, seq<byte>)>)
    ensures r.Some? ==> r.value.0 + |r.value.1| <= |data|
  {
    match FirstMatch(entries, key)
    case None => None
    case Some(i) =>
      var e := entries[i];
      var text := EntryText(data, e, codec);
      var patched := PatchText(text, params);
      if |patched| != |text| then None
      else
        var encoded := Utf8Encode(patched);
        if |encoded| != e.length then None
        else if e.offset + e.length > |data| then None
        else Some((e.offset as nat, encoded))
  }

  /** One group applied to the buffer. */
  function PatchGroup(data: seq<byte>, entries: seq<Record>, key: string, params: seq<ModParameter>, codec: Codec)
    : (r: seq<byte>)
    ensures |r| == |data|
  {
    match PlanGroup(data, entries, key, params, codec)
    case None => data
    case Some((off, bytes)) => Splice(data, off, bytes)
  }

  /** The group loop (big/big.py:210-253): the groups one after another, each
      on the buffer the ones before it left. The buffer keeps its length. */
  function PatchAll(data: seq<byte>, entries: seq<Record>, groups: seq<(string, seq<ModParameter>)>, codec: Codec)
    : (r: seq<byte>)
    ensures |r| == |data|
    decreases groups
  {
    if groups == [] then data
    else PatchAll(PatchGroup(data, entries, groups[0].0, groups[0].1, codec), entries, groups[1..], codec)
  }

  /** A group writes exactly when an entry has its key, the entry's range lies
      in the buffer and the patched text of that range re-encodes to the
      entry's length; it then writes that encoding at the entry's offset. */
  lemma PlanGroupWrites(data: seq<byte>, entries: seq<Record>, key: string, params: seq<ModParameter>, codec: Codec)
    ensures var r := PlanGroup(data, entries, key, params, codec);
      var m := FirstMatch(entries, key);
      r.Some? <==>
        (m.Some? && entries[m.value].offset + entries[m.value].length <= |data|
         && |Utf8Encode(PatchText(EntryText(data, entries[m.value], codec), params))| == entries[m.value].length)
    ensures var r := PlanGroup(data, entries, key, params, codec);
      var m := FirstMatch(entries, key);
      r.Some? ==> r.value == (entries[m.value].offset as nat, Utf8Encode(PatchText(EntryText(data, entries[m.value], codec), params)))
  {
  }

  /** The text a group patches is the entry's own range of the buffer when that
      range lies in it. */
  lemma EntryTextInRange(data: seq<byte>, e: Record, codec: Codec)
    requires e.offset + e.length <= |data|
    ensures EntryText(data, e, codec) == DecodeContent(codec, data[e.offset..e.offset + e.length])
  {
  }

  /** A group whose inner file is not in the table changes nothing. */
  lemma PatchGroupMissing(data: seq<byte>, entries: seq<Record>, key: string, params: seq<ModParameter>, codec: Codec)
    requires forall i :: 0 <= i < |entries| ==> NormalizePath(entries[i].path) != key
    ensures PatchGroup(data, entries, key, params, codec) == data
  {
  }

  /** A group whose entry's range runs past the buffer changes nothing. */
  lemma PatchGroupPastEnd(data: seq<byte>, entries: seq<Record>, key: string, params: seq<ModParameter>, codec: Codec)
    requires FirstMatch(entries, key).Some?
    requires var e := entries[FirstMatch(entries, key).value]; e.offset + e.length > |data|
    ensures PatchGroup(data, entries, key, params, codec) == data
  {
  }

  /** The range a group may write: that of the first entry with its key. */
  predicate Covers(entries: seq<Record>, key: string, x: nat)
  {
    match FirstMatch(entries, key)
    case None => false
    case Some(i) => entries[i].offset <= x < entries[i].offset + entries[i].length
  }

  lemma PatchGroupOutside(data: seq<byte>, entries: seq<Record>, key: string, params: seq<ModParameter>, codec: Codec, x: nat)
    requires x < |data| && !Covers(entries, key, x)
    ensures PatchGroup(data, entries, key, params, codec)[x] == data[x]
  {
  }

  /** A byte in no group's range keeps its value through all the groups. */
  lemma {:induction false} PatchAllOutside(data: seq<byte>, entries: seq<Record>, groups: seq<(string, seq<ModParameter>)>,
                                           codec: Codec, x: nat)
    requires x < |data|
    requires forall g :: 0 <= g < |groups| ==> !Covers(entries, groups[g].0, x)
    ensures PatchAll(data, entries, groups, codec)[x] == data[x]
    decreases groups
  {
    if groups != [] {
      var next := PatchGroup(data, entries, groups[0].0, groups[0].1, codec);
      PatchGroupOutside(data, entries, groups[0].0, groups[0].1, codec, x);
      forall g | 0 <= g < |groups| - 1 ensures !Covers(entries, groups[1..][g].0, x) {
        assert groups[1..][g] == groups[g + 1];
      }
      PatchAllOutside(next, entries, groups[1..], codec, x);
    }
  }

  /** The parameter loop (big/big.py:235-240). */
  method ApplyRequests(text: string, params: seq<ModParameter>) returns (patched: string)
    ensures patched == PatchText(text, params)
  {
    patched := text;
    var i := 0;
    while i < |params|
      invariant 0 <= i <= |params|
      invariant PatchText(patched, params[i..]) == PatchText(text, params)
    {
      assert params[i..][1..] == params[i + 1..];
      var r := PatchIni(patched, params[i].parameterName, params[i].targetValue);
      if r.Ok? {
        patched := r.value;
      }
      i := i + 1;
    }
  }

  /** `archive_data[offset:offset+length] = new_file_data` for a range inside
      the buffer and bytes of the range's length: the bytes are copied over the
      range one by one. */
  method WriteAt(buf: array<byte>, off: nat, bytes: seq<byte>)
    requires off + |bytes| <= buf.Length
    modifies buf
    ensures buf[..] == Splice(old(buf[..]), off, bytes)
  {
    ghost var start := buf[..];
    var j := 0;
    while j < |bytes|
      invariant 0 <= j <= |bytes|
      invariant forall x :: 0 <= x < buf.Length ==> buf[x] == if off <= x < off + j then bytes[x - off] else start[x]
    {
      buf[off + j] := bytes[j];
      j := j + 1;
    }
    assert buf[..] == Splice(start, off, bytes);
  }

  /** One group patched in place (big/big.py:212-253); a skipped group leaves
      the buffer as it is. */
  method PatchGroupInPlace(buf: array<byte>, entries: seq<Record>, key: string, params: seq<ModParameter>, codec: Codec)
    modifies buf
    ensures buf[..] == PatchGroup(old(buf[..]), entries, key, params, codec)
  {
    ghost var plan := PlanGroup(buf[..], entries, key, params, codec);
    var m := FirstMatch(entries, key);
    if m.None? {
      return;
    }
    var e := entries[m.value];
    var fileData := SliceClamped(buf[..], e.offset, e.offset + e.length);
    var fileText := DecodeContent(codec, fileData);
    assert fileText == EntryText(buf[..], e, codec);
    var patched := ApplyRequests(fileText, params);
    if |patched| != |fileText| {
      return;
    }
    var encoded := Utf8Encode(patched);
    if |encoded| != e.length || e.offset + e.length > buf.Length {
      assert plan.None?;
      return;
    }
    assert plan == Some((e.offset as nat, encoded));
    WriteAt(buf, e.offset, encoded);
  }

  /** The buffer of the whole archive patched group by group, in the order of
      the grouping dictionary. */
  method PatchBuffer(buf: array<byte>, entries: seq<Record>, order: seq<string>,
                     groups: map<string, seq<ModParameter>>, codec: Codec)
    requires forall k :: k in order ==> k in groups
    modifies buf
    ensures buf[..] == PatchAll(old(buf[..]), entries, Items(order, groups), codec)
  {
    ghost var items := Items(order, groups);
    var g := 0;
    while g < |order|
      invariant 0 <= g <= |order|
      invariant PatchAll(buf[..], entries, items[g..], codec) == PatchAll(old(buf[..]), entries, items, codec)
    {
      assert items[g..][1..] == items[g + 1..];
      assert items[g..][0] == (order[g], groups[order[g]]);
      PatchGroupInPlace(buf, entries, order[g], groups[order[g]], codec);
      g := g + 1;
    }
  }

  /** `archive_data[lo:hi] = bytes` for `0 <= lo <= hi`: Python clamps both
      bounds, and the bytes replace however many the clamped range holds. */
  function SliceAssign(data: seq<byte>, lo: nat, hi: nat, bytes: seq<byte>): (r: seq<byte>)
    requires lo <= hi
    ensures hi <= |data| ==> |r| == |data| - (hi - lo) + |bytes|
    ensures hi > |data| ==> |r| == (if lo < |data| then lo else |data|) + |bytes|
  {
    var a := if lo < |data| then lo else |data|;
    var b := if hi < |data| then hi else |data|;
    data[..a] + bytes + data[b..]
  }

  /** One group as `patch_parameters` writes it: the same checks as
      `PlanGroup` but the range bound. */
  function PlanGroupAsWritten(data: seq<byte>, entries: seq<Record>, key: string, params: seq<ModParameter>, codec: Codec)
    : (r: Option<(nat, seq<byte>)>)
    ensures r.Some? ==> FirstMatch(entries, key).Some?
  {
    match FirstMatch(entries, key)
    case None => None
    case Some(i) =>
      var e := entries[i];
      var text := EntryText(data, e, codec);
      var patched := PatchText(text, params);
      if |patched| != |text| then None
      else
        var encoded := Utf8Encode(patched);
        if |encoded| != e.length then None
        else Some((e.offset as nat, encoded))
  }

  /** The group as written: the chosen bytes go in through a slice assignment. */
  function PatchGroupAsWritten(data: seq<byte>, entries: seq<Record>, key: string, params: seq<ModParameter>, codec: Codec)
    : seq<byte>
  {
    match PlanGroupAsWritten(data, entries, key, params, codec)
    case None => data
    case Some((off, bytes)) => SliceAssign(data, off, off + |bytes|, bytes)
  }

  /** Where the range lies in the buffer the two plans are the same. */
  lemma PlansAgreeInRange(data: seq<byte>, entries: seq<Record>, key: string, params: seq<ModParameter>, codec: Codec)
    requires FirstMatch(entries, key).Some?
    requires var e := entries[FirstMatch(entries, key).value]; e.offset + e.length <= |data|
    ensures PlanGroupAsWritten(data, entries, key, params, codec) == PlanGroup(data, entries, key, params, codec)
  {
  }

  /** A slice assignment of as many bytes as the range holds, inside the
      buffer, overwrites that range. */
  lemma SliceAssignInRange(data: seq<byte>, lo: nat, bytes: seq<byte>)
    requires lo + |bytes| <= |data|
    ensures SliceAssign(data, lo, lo + |bytes|, bytes) == Splice(data, lo, bytes)
  {
    assert data[..lo] + bytes + data[lo + |bytes|..] == Splice(data, lo, bytes);
  }

  /** Where the range lies in the buffer the code as written and the bounded
      model agree. */
  lemma AsWrittenAgreesInRange(data: seq<byte>, entries: seq<Record>, key: string, params: seq<ModParameter>, codec: Codec)
    requires FirstMatch(entries, key).Some?
    requires var e := entries[FirstMatch(entries, key).value]; e.offset + e.length <= |data|
    ensures PatchGroupAsWritten(data, entries, key, params, codec) == PatchGroup(data, entries, key, params, codec)
  {
    PlansAgreeInRange(data, entries, key, params, codec);
    var plan := PlanGroup(data, entries, key, params, codec);
    if plan.Some? {
      SliceAssignInRange(data, plan.value.0, plan.value.1);
    }
  }

  /** The request of the counterexample below: parameter `A` of inner file `a`
      to `é`. */
  const E_ACUTE_REQUEST: ModParameter := ModParameter("", "a", "A", "", "\U{E9}", "")

  lemma FindShortValue()
    ensures FindParameter("A=1", "A") == Some(Match(0, 0, 2, 3, 3))
  {
    var s := "A=1";
    assert s[0..1] == "A";
    assert SpanSpace(s, 1) == 1 && SpanSpace(s, 2) == 2;
    assert RestAt(s, "A", 0);
    assert SpanSpace(s, 0) == 0;
    assert Scan(s, "A", 0) == Some((0, 0));
    assert SpanNonSpace(s, 3) == 3 && SpanNonSpace(s, 2) == 3;
    assert LineEnd(s, 3) == 3;
  }

  /** The value `é` fits the one-character token of `A=1`, and its UTF-8 takes
      two bytes, so the patched text is one byte longer than `A=1`. */
  lemma PatchEAcute()
    ensures PatchText("A=1", [E_ACUTE_REQUEST]) == "A=\U{E9}"
    ensures Utf8Encode("A=\U{E9}") == [65, 61, 0xC3, 0xA9]
  {
    var s := "A=1";
    FindShortValue();
    assert Fit("\U{E9}", 1) == "\U{E9}";
    assert s[..0] + (s[0..2] + "\U{E9}" + s[3..3]) + s[3..] == "A=\U{E9}";
    assert [E_ACUTE_REQUEST][1..] == [];
    var t := "A=\U{E9}";
    assert t[1..] == "=\U{E9}" && t[1..][1..] == "\U{E9}" && t[1..][1..][1..] == [];
    assert Utf8Char('\U{E9}') == [0xC3, 0xA9];
  }

  lemma KeyOfA()
    ensures NormalizePath("a") == "a"
  {
    assert Lower(ReplaceChar("a", '\\', '/')) == "a";
    StripFixed("a");
  }

  /** The entry `a` claims four bytes at offset 0 of the three-byte buffer
      `A=1`. Both checks pass: the text keeps its three characters and its
      UTF-8 has the entry's four bytes. */
  lemma PlanShortBuffer(codec: Codec)
    requires codec.utf8([65, 61, 49]) == Some("A=1")
    ensures PlanGroupAsWritten([65, 61, 49], [Record(0, 4, "a")], "a", [E_ACUTE_REQUEST], codec)
            == Some((0, [65, 61, 0xC3, 0xA9]))
    ensures PlanGroup([65, 61, 49], [Record(0, 4, "a")], "a", [E_ACUTE_REQUEST], codec) == None
  {
    var data: seq<byte> := [65, 61, 49];
    KeyOfA();
    assert FirstMatch([Record(0, 4, "a")], "a") == Some(0);
    assert SliceClamped(data, 0, 4) == data;
    assert EntryText(data, Record(0, 4, "a"), codec) == "A=1";
    PatchEAcute();
  }

  /** As written, a group whose entry's range runs past the end of the buffer
      is still written when both length checks pass, and the slice assignment
      then grows the buffer, here from three bytes to four; the bounded model
      leaves the buffer as it is. */
  lemma AsWrittenGrowsBuffer(codec: Codec)
    requires codec.utf8([65, 61, 49]) == Some("A=1")
    ensures |PatchGroupAsWritten([65, 61, 49], [Record(0, 4, "a")], "a", [E_ACUTE_REQUEST], codec)| == 4
    ensures PatchGroup([65, 61, 49], [Record(0, 4, "a")], "a", [E_ACUTE_REQUEST], codec) == [65, 61, 49]
  {
    PlanShortBuffer(codec);
  }
}
