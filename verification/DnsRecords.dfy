/** Zone lookup and record deletion (catalogops/dns.go). The backend erases every
    record equal to what it is told to delete; the handler must make sure that is one. */
module DnsRecords {
  import opened Basics
  import opened Ascii
  import opened Decimals
  import opened Args
  import opened Accessors
  import opened PageScan

  datatype Record = Record(id: string, name: string, recordType: string, content: string)

  datatype ZoneEntry = ZoneEntry(id: int, domain: string)

  predicate SameTriple(r: Record, name: string, recordType: string, content: string) {
    r.name == name && r.recordType == recordType && r.content == content
  }

  /** What a delete by name and type, optionally with a content, erases. */
  predicate Addressed(r: Record, name: string, recordType: string, content: Option<string>) {
    r.name == name && r.recordType == recordType && (content.Some? ==> r.content == content.value)
  }

  function Erase(records: seq<Record>, name: string, recordType: string, content: Option<string>): seq<Record> {
    if records == [] then []
    else
      (if Addressed(records[0], name, recordType, content) then [] else [records[0]])
      + Erase(records[1..], name, recordType, content)
  }

  /** Record `k` carries the triple and no other record does. */
  predicate OnlyMatch(records: seq<Record>, k: nat, name: string, recordType: string, content: string) {
    && k < |records|
    && SameTriple(records[k], name, recordType, content)
    && forall j :: 0 <= j < |records| && j != k ==> !SameTriple(records[j], name, recordType, content)
  }

  lemma {:induction false} EraseNothing(records: seq<Record>, name: string, recordType: string, content: Option<string>)
    requires forall r :: r in records ==> !Addressed(r, name, recordType, content)
    ensures Erase(records, name, recordType, content) == records
  {
    if records == [] {
    } else {
      EraseNothing(records[1..], name, recordType, content);
      assert records[0] in records;
    }
  }

  lemma OnlyMatchBehind(records: seq<Record>, k: nat, name: string, recordType: string, content: string)
    requires OnlyMatch(records, k, name, recordType, content) && k > 0
    ensures !Addressed(records[0], name, recordType, Some(content))
    ensures OnlyMatch(records[1..], k - 1, name, recordType, content)
  {
    assert !SameTriple(records[0], name, recordType, content);
    assert forall j :: 0 <= j < |records[1..]| ==> records[1..][j] == records[j + 1];
  }

  /** Erasing a triple that one record carries removes that record and keeps the
      others, in order. */
  lemma {:induction false} EraseOnlyMatch(records: seq<Record>, k: nat, name: string, recordType: string,
                                          content: string)
    requires OnlyMatch(records, k, name, recordType, content)
    ensures Erase(records, name, recordType, Some(content)) == records[..k] + records[k + 1..]
  {
    var rest := records[1..];
    if k == 0 {
      forall r | r in rest ensures !Addressed(r, name, recordType, Some(content)) {
        var j :| 0 <= j < |rest| && rest[j] == r;
        assert records[j + 1] == r;
      }
      EraseNothing(rest, name, recordType, Some(content));
      assert records[..0] == [];
    } else {
      OnlyMatchBehind(records, k, name, recordType, content);
      EraseOnlyMatch(rest, k - 1, name, recordType, content);
      assert records[..k] == [records[0]] + rest[..k - 1];
      assert rest[k..] == records[k + 1..];
    }
  }

  /** Erasing removes every addressed record and keeps each other one as often as it was there. */
  lemma {:induction false} EraseKeepsOthers(records: seq<Record>, name: string, recordType: string,
                                            content: Option<string>, r: Record)
    ensures multiset(Erase(records, name, recordType, content))[r] ==
              if Addressed(r, name, recordType, content) then 0 else multiset(records)[r]
  {
    if records == [] {
    } else {
      EraseKeepsOthers(records[1..], name, recordType, content, r);
      assert records == [records[0]] + records[1..];
    }
  }

  /** From record `n` on, none carries the triple. */
  predicate RestIsOther(records: seq<Record>, n: nat, name: string, recordType: string, content: string) {
    forall j :: n <= j < |records| ==> !SameTriple(records[j], name, recordType, content)
  }

  /** Erasing the triple of the only match among the first `n` records removes that record
      alone exactly when the rest holds no other. */
  lemma EraseBeyond(records: seq<Record>, n: nat, k: nat, name: string, recordType: string, content: string)
    requires n <= |records| && OnlyMatch(records[..n], k, name, recordType, content)
    ensures Erase(records, name, recordType, Some(content)) == records[..k] + records[k + 1..] <==>
              RestIsOther(records, n, name, recordType, content)
  {
    var kept := records[..k] + records[k + 1..];
    assert forall j :: 0 <= j < n ==> records[..n][j] == records[j];
    if RestIsOther(records, n, name, recordType, content) {
      EraseOnlyMatch(records, k, name, recordType, content);
    } else {
      var j :| n <= j < |records| && SameTriple(records[j], name, recordType, content);
      EraseKeepsOthers(records, name, recordType, Some(content), records[j]);
      assert kept[j - 1] == records[j];
      assert records[j] in multiset(kept);
    }
  }

  datatype TargetError = EmptyContent | NoSuchRecord | SeveralRecords

  /** findRecordByID: the first record with the id. */
  method FindRecordByID(records: seq<Record>, id: string) returns (k: Option<nat>)
    ensures k.Some? ==>
              && k.value < |records| && records[k.value].id == id
              && forall j :: 0 <= j < k.value ==> records[j].id != id
    ensures k.None? ==> forall j :: 0 <= j < |records| ==> records[j].id != id
  {
    for i := 0 to |records|
      invariant forall j :: 0 <= j < i ==> records[j].id != id
    {
      if records[i].id == id {
        return Some(i);
      }
    }
    return None;
  }

  /** uniqueRecordMatching: counts the matches and keeps the last one seen. */
  method UniqueRecordMatching(records: seq<Record>, name: string, recordType: string, content: string)
    returns (found: Result<nat, TargetError>)
    ensures found.Ok? ==> content != "" && OnlyMatch(records, found.value, name, recordType, content)
    ensures found.Err? <==> content == "" || forall k: nat :: !OnlyMatch(records, k, name, recordType, content)
    ensures found == Err(EmptyContent) <==> content == ""
    ensures found == Err(NoSuchRecord) <==>
              content != "" && forall r :: r in records ==> !SameTriple(r, name, recordType, content)
    ensures found == Err(SeveralRecords) <==>
              && content != ""
              && exists i, j :: 0 <= i < j < |records|
                   && SameTriple(records[i], name, recordType, content)
                   && SameTriple(records[j], name, recordType, content)
  {
    if content == "" {
      return Err(EmptyContent);
    }
    var last: nat := 0;
    var count: nat := 0;
    for i := 0 to |records|
      invariant count == 0 ==> forall j :: 0 <= j < i ==> !SameTriple(records[j], name, recordType, content)
      invariant count > 0 ==> last < i && SameTriple(records[last], name, recordType, content)
      invariant count == 1 ==>
                  forall j :: 0 <= j < i && j != last ==> !SameTriple(records[j], name, recordType, content)
      invariant count > 1 ==> exists j :: 0 <= j < last && SameTriple(records[j], name, recordType, content)
    {
      if SameTriple(records[i], name, recordType, content) {
        count := count + 1;
        last := i;
      }
    }
    if count == 0 {
      return Err(NoSuchRecord);
    }
    if count > 1 {
      return Err(SeveralRecords);
    }
    assert OnlyMatch(records, last, name, recordType, content);
    return Ok(last);
  }

  /** The backend's view of one zone, and how its calls may fail. */
  class Zone {
    var records: seq<Record>

    constructor (records: seq<Record>)
      ensures this.records == records
    {
      this.records := records;
    }

    method DeleteRecord(name: string, recordType: string, content: Option<string>, fails: bool) returns (ok: bool)
      modifies this
      ensures ok == !fails
      ensures records == if ok then Erase(old(records), name, recordType, content) else old(records)
    {
      if fails {
        return false;
      }
      records := Erase(records, name, recordType, content);
      return true;
    }
  }

  datatype DeleteRefusal =
    | ConfirmationRequired | TargetRequired | BackendFailed | ListingFailed
    | UnknownId | NotDeletable(error: TargetError)

  datatype DeleteResult =
    | Deleted(id: string, name: string, recordType: string, content: string)
    | NotDeleted(reason: DeleteRefusal)

  /** How the backend behaves during one call: which fetches fail, the total it
      reports with a page, and whether the delete itself fails. */
  datatype Backend = Backend(fetchFails: nat -> bool, total: int, deleteFails: bool)

  /** The stored form of a record name: the apex is stored as "". */
  function StoredName(name: string): string {
    if name == "@" then "" else name
  }

  /** The name, type and content an input addresses when no id is given. */
  function WantedName(input: Input): string {
    StoredName(StrArg(input, "name", ""))
  }

  function WantedType(input: Input): string {
    ToUpper(StrArg(input, "type", ""))
  }

  /** What the caller wrote under a key, "" for anything that is not text. */
  function Given(input: Input, key: string): string {
    match Get(input, key)
    case Some(Str(s)) => s
    case _ => ""
  }

  predicate ByID(input: Input) {
    Given(input, "id") != ""
  }

  predicate WholeSet(input: Input) {
    Given(input, "id") == "" && Given(input, "content") == ""
  }

  /** The record an input singles out: the first one with the id, or any record with
      the addressed triple; in both cases the only one with its triple. */
  predicate Targets(input: Input, records: seq<Record>, k: nat) {
    && k < |records|
    && records[k].content != ""
    && OnlyMatch(records, k, records[k].name, records[k].recordType, records[k].content)
    && (if ByID(input) then
          && records[k].id == StrArg(input, "id", "")
          && forall j :: 0 <= j < k ==> records[j].id != StrArg(input, "id", "")
        else SameTriple(records[k], WantedName(input), WantedType(input), StrArg(input, "content", "")))
  }

  predicate NamesGiven(input: Input) {
    Given(input, "id") != "" || (Given(input, "name") != "" && Given(input, "type") != "")
  }

  predicate ListingWorks(backend: Backend, n: nat) {
    forall k :: 0 <= k < CallsNeeded(n, backend.total) ==> !backend.fetchFails(PageStart(k))
  }

  predicate Confirmed(input: Input) {
    Get(input, "confirm") == Some(Bool(true))
  }

  /** A delete that is not by id is of the name as written, "" for "@", and of the type in
      capitals; a content that was given is the one erased. A delete by id answers with it. */
  ghost predicate AsRequested(input: Input, id: string, name: string, recordType: string, content: string) {
    && id == Given(input, "id")
    && (id == "" ==>
          && Given(input, "name") != "" && Given(input, "type") != ""
          && name == (if Given(input, "name") == "@" then "" else Given(input, "name"))
          && |recordType| == |Given(input, "type")|
          && (forall i :: 0 <= i < |recordType| ==> Capital(Given(input, "type")[i], recordType[i]))
          && content == Given(input, "content"))
  }

  /** `d` is `c`, as a capital if it is one of a to z. */
  predicate Capital(c: char, d: char) {
    d as int == if 97 <= c as int <= 122 then c as int - 32 else c as int
  }

  lemma WantedAsRequested(input: Input)
    requires !ByID(input) && NamesGiven(input)
    ensures AsRequested(input, "", WantedName(input), WantedType(input), StrArg(input, "content", ""))
  {
    var given := Given(input, "type");
    assert StrArg(input, "type", "") == given;
    forall i | 0 <= i < |given| ensures Capital(given[i], WantedType(input)[i]) {
      LetterCase(given[i]);
    }
  }

  /** The record an input without id singles out, in terms of what was written: the only one
      of the stored name, the capitalized type and the content. */
  lemma TargetByTriple(input: Input, records: seq<Record>, k: nat, recordType: string)
    requires Given(input, "id") == "" && |recordType| == |Given(input, "type")|
    requires forall i :: 0 <= i < |recordType| ==> Capital(Given(input, "type")[i], recordType[i])
    ensures Targets(input, records, k) <==>
              && k < |records| && Given(input, "content") != ""
              && var name := if Given(input, "name") == "@" then "" else Given(input, "name");
                 forall j :: 0 <= j < |records| ==>
                   (j == k <==>
                      && records[j].name == name && records[j].recordType == recordType
                      && records[j].content == Given(input, "content"))
  {
    forall i | 0 <= i < |recordType| ensures recordType[i] == WantedType(input)[i] {
      LetterCase(Given(input, "type")[i]);
    }
    assert recordType == WantedType(input);
  }

  /** The one an id singles out: the first record of that id, if its content is not empty and
      no other record agrees with it in name, type and content. */
  lemma TargetByID(input: Input, records: seq<Record>, k: nat)
    requires Given(input, "id") != ""
    ensures Targets(input, records, k) <==>
              && k < |records| && records[k].id == Given(input, "id") && records[k].content != ""
              && (forall j :: 0 <= j < k ==> records[j].id != Given(input, "id"))
              && forall j :: 0 <= j < |records| && j != k ==>
                   !(records[j].name == records[k].name && records[j].recordType == records[k].recordType
                     && records[j].content == records[k].content)
  {
  }

  /** Resolving the target on the listed records: by id through the record's own triple,
      else by the triple given. */
  method ResolveTarget(input: Input, records: seq<Record>, name: string, recordType: string, content: string)
    returns (found: Result<nat, DeleteRefusal>)
    requires !ByID(input) ==>
               && name == WantedName(input) && recordType == WantedType(input)
               && content == StrArg(input, "content", "")
    ensures found.Ok? ==> Targets(input, records, found.value)
    ensures found.Err? ==> forall k: nat :: !Targets(input, records, k)
    ensures found.Err? ==> found.error == UnknownId || found.error.NotDeletable?
    ensures found == Err(UnknownId) <==> ByID(input) && forall r :: r in records ==> r.id != Given(input, "id")
  {
    var name, recordType, content := name, recordType, content;
    if ByID(input) {
      var rec := FindRecordByID(records, StrArg(input, "id", ""));
      if rec.None? {
        return Err(UnknownId);
      }
      name, recordType, content := records[rec.value].name, records[rec.value].recordType, records[rec.value].content;
      assert forall k: nat :: Targets(input, records, k) ==> k == rec.value;
    }
    var unique := UniqueRecordMatching(records, name, recordType, content);
    if unique.Err? {
      assert forall k: nat :: Targets(input, records, k) ==> OnlyMatch(records, k, name, recordType, content);
      return Err(NotDeletable(unique.error));
    }
    return Ok(unique.value);
  }

  /** One record erased: the one singled out among those listed, through its triple. */
  ghost predicate OneErased(input: Input, total: int, before: seq<Record>, after: seq<Record>, r: DeleteResult) {
    r.Deleted? &&
    exists k: nat ::
      && Targets(input, Listed(before, total), k)
      && (ByID(input) ==> before[k].id == Given(input, "id"))
      && before[k].name == r.name && before[k].recordType == r.recordType && before[k].content == r.content
      && after == Erase(before, r.name, r.recordType, Some(r.content))
      && (after == before[..k] + before[k + 1..] <==>
            RestIsOther(before, |Listed(before, total)|, r.name, r.recordType, r.content))
  }

  /** With a total that reaches, that record alone is gone. */
  lemma OneErasedOnly(input: Input, total: int, before: seq<Record>, after: seq<Record>, r: DeleteResult)
    requires OneErased(input, total, before, after, r) && TotalReaches(total, |before|)
    ensures exists k: nat ::
              && Targets(input, before, k)
              && before[k].name == r.name && before[k].recordType == r.recordType && before[k].content == r.content
              && after == before[..k] + before[k + 1..]
  {
    CompleteExactly(before, total);
  }

  /** The part that lists the zone, for a delete by id or by content. */
  method DeleteListed(zone: Zone, input: Input, backend: Backend, name: string, recordType: string, content: string)
    returns (r: DeleteResult)
    requires !WholeSet(input) && NamesGiven(input)
    requires !ByID(input) ==>
               && name == WantedName(input) && recordType == WantedType(input)
               && content == StrArg(input, "content", "")
    modifies zone
    ensures r.NotDeleted? ==> zone.records == old(zone.records)
    ensures r.NotDeleted? ==> r.reason !in {ConfirmationRequired, TargetRequired}
    ensures r.Deleted? ==> OneErased(input, backend.total, old(zone.records), zone.records, r)
    ensures r.Deleted? ==> AsRequested(input, r.id, r.name, r.recordType, r.content)
    ensures r.Deleted? <==>
              && ListingWorks(backend, |old(zone.records)|)
              && !backend.deleteFails
              && exists k: nat :: Targets(input, Listed(old(zone.records), backend.total), k)
    ensures r == NotDeleted(ListingFailed) <==> !ListingWorks(backend, |old(zone.records)|)
  {
    var listed, _ := CollectAll(zone.records, backend.fetchFails, backend.total);
    if listed.None? {
      return NotDeleted(ListingFailed);
    }
    ghost var n := |listed.value|;
    assert listed.value == zone.records[..n];
    var found := ResolveTarget(input, listed.value, name, recordType, content);
    if found.Err? {
      return NotDeleted(found.error);
    }
    var target := listed.value[found.value];
    EraseBeyond(zone.records, n, found.value, target.name, target.recordType, target.content);
    var deleted := zone.DeleteRecord(target.name, target.recordType, Some(target.content), backend.deleteFails);
    if !deleted {
      return NotDeleted(BackendFailed);
    }
    if !ByID(input) {
      WantedAsRequested(input);
    }
    return Deleted(if ByID(input) then StrArg(input, "id", "") else "", target.name, target.recordType, target.content);
  }

  /** The delete handler of `dns records delete`, after the zone is resolved. The target is
      the only one of its triple among the records listed. With a total that reaches, these
      are all, and one record goes; a shorter total hides the rest, and every record of the
      triple in it goes as well. */
  method DnsRecordsDelete(zone: Zone, input: Input, backend: Backend) returns (r: DeleteResult)
    modifies zone
    ensures r.NotDeleted? ==> zone.records == old(zone.records)
    ensures r == NotDeleted(ConfirmationRequired) <==> !Confirmed(input)
    ensures r == NotDeleted(TargetRequired) <==> Confirmed(input) && !NamesGiven(input)
    ensures r.Deleted? ==> AsRequested(input, r.id, r.name, r.recordType, r.content)
    ensures r.Deleted? && !WholeSet(input) ==> OneErased(input, backend.total, old(zone.records), zone.records, r)
    ensures r.Deleted? && !WholeSet(input) && TotalReaches(backend.total, |old(zone.records)|) ==>
              exists k: nat ::
                && Targets(input, old(zone.records), k)
                && old(zone.records)[k].name == r.name && old(zone.records)[k].recordType == r.recordType
                && old(zone.records)[k].content == r.content
                && zone.records == old(zone.records)[..k] + old(zone.records)[k + 1..]
    ensures r.Deleted? && WholeSet(input) ==>
              && zone.records == Erase(old(zone.records), r.name, r.recordType, None)
              && forall x :: multiset(zone.records)[x] ==
                   if x.name == r.name && x.recordType == r.recordType then 0 else multiset(old(zone.records))[x]
    ensures !WholeSet(input) ==>
              (r.Deleted? <==>
                && Confirmed(input)
                && NamesGiven(input)
                && ListingWorks(backend, |old(zone.records)|)
                && !backend.deleteFails
                && exists k: nat :: Targets(input, Listed(old(zone.records), backend.total), k))
    ensures WholeSet(input) ==>
              (r.Deleted? <==> Confirmed(input) && NamesGiven(input) && !backend.deleteFails)
  {
    if !BoolArgOf(input, "confirm", false) {
      return NotDeleted(ConfirmationRequired);
    }
    var name, recordType, content := "", "", "";
    var byID := false;
    var id := StrArg(input, "id", "");
    if id != "" {
      byID := true;
    } else {
      name := StrArg(input, "name", "");
      recordType := ToUpper(StrArg(input, "type", ""));
      if name == "" || recordType == "" {
        return NotDeleted(TargetRequired);
      }
      if name == "@" {
        name := "";
      }
      content := StrArg(input, "content", "");
    }
    if content == "" && !byID {
      r := DeleteWhole(zone, input, backend, name, recordType);
      return;
    }
    r := DeleteListed(zone, input, backend, name, recordType, content);
    if r.Deleted? && TotalReaches(backend.total, |old(zone.records)|) {
      OneErasedOnly(input, backend.total, old(zone.records), zone.records, r);
    }
  }

  /** The part for a whole name and type: nothing needs to be listed. */
  method DeleteWhole(zone: Zone, input: Input, backend: Backend, name: string, recordType: string)
    returns (r: DeleteResult)
    requires WholeSet(input) && NamesGiven(input) && name == WantedName(input) && recordType == WantedType(input)
    modifies zone
    ensures r == if backend.deleteFails then NotDeleted(BackendFailed) else Deleted("", name, recordType, "")
    ensures AsRequested(input, "", name, recordType, "")
    ensures zone.records == if r.Deleted? then Erase(old(zone.records), name, recordType, None) else old(zone.records)
    ensures r.Deleted? ==>
              forall x :: multiset(zone.records)[x] ==
                if x.name == name && x.recordType == recordType then 0 else multiset(old(zone.records))[x]
  {
    WantedAsRequested(input);
    forall x {
      EraseKeepsOthers(zone.records, name, recordType, None, x);
    }
    var deleted := zone.DeleteRecord(name, recordType, None, backend.deleteFails);
    if !deleted {
      return NotDeleted(BackendFailed);
    }
    return Deleted("", name, recordType, "");
  }

  datatype ZoneError = ZonesUnavailable | ZoneNotFound

  /** resolveZoneID: a numeric argument is the id; otherwise the first zone of that
      domain, wherever its page is. */
  method ResolveZoneID(zones: seq<ZoneEntry>, arg: string, w: IntWidth, fetchFails: nat -> bool, total: int)
    returns (id: Result<string, ZoneError>)
    ensures Atoi(arg, w).Number? ==> id == Ok(arg)
    ensures !Atoi(arg, w).Number? && id.Ok? ==>
              exists k :: 0 <= k < |Listed(zones, total)| && zones[k].domain == arg
                          && id.value == FormatInt(zones[k].id)
                          && forall j :: 0 <= j < k ==> zones[j].domain != arg
    ensures id == Err(ZonesUnavailable) <==>
              && !Atoi(arg, w).Number?
              && exists k: nat :: k < CallsNeeded(|zones|, total) && fetchFails(PageStart(k))
    ensures id == Err(ZoneNotFound) <==>
              && !Atoi(arg, w).Number?
              && (forall k: nat :: k < CallsNeeded(|zones|, total) ==> !fetchFails(PageStart(k)))
              && forall z :: z in Listed(zones, total) ==> z.domain != arg
    ensures TotalReaches(total, |zones|) ==> Listed(zones, total) == zones
  {
    if Atoi(arg, w).Number? {
      return Ok(arg);
    }
    var all, _ := CollectAll(zones, fetchFails, total);
    CompleteExactly(zones, total);
    if all.None? {
      return Err(ZonesUnavailable);
    }
    for i := 0 to |all.value|
      invariant forall j :: 0 <= j < i ==> all.value[j].domain != arg
    {
      if all.value[i].domain == arg {
        return Ok(FormatInt(all.value[i].id));
      }
    }
    return Err(ZoneNotFound);
  }
}
