/**
 Evidence consistency of claims: a claim cites source records by id and digest, and
 is valid only while every cited record still exists, is in scope and unchanged,
 and its value still follows from them.
 */
module ClaimEvidence {
  import opened Prelude

  /** A JSON scalar; a missing key reads as `Null`. `Other` covers floats, lists and objects. */
  datatype Json = Null | Bool(b: bool) | Int(i: int) | Str(s: string) | Other(tag: nat)

  datatype Record = Fields(fields: map<string, Json>) | NotAnObject(json: Json)

  datatype Artifact = Artifact(project: Json, incognito: Json, records: map<string, Record>)

  datatype Citation = Citation(artifact: Option<string>, record: Option<string>, version: Option<string>)

  datatype Claim = Claim(artifact: string, project: Json, scope: Json, rule: string, value: Json, supports: seq<string>)

  datatype Bundle = Bundle(artifacts: map<string, Artifact>, citations: map<string, Citation>, claims: map<string, Claim>)

  function Get(fields: map<string, Json>, key: string): Json {
    if key in fields then fields[key] else Null
  }

  function ArtifactOf(b: Bundle, name: Option<string>): Artifact {
    if name.Some? && name.value in b.artifacts then b.artifacts[name.value] else Artifact(Null, Null, map[])
  }

  function CitationOf(b: Bundle, ref: string): Citation {
    if ref in b.citations then b.citations[ref] else Citation(None, None, None)
  }

  function RecordOf(a: Artifact, name: Option<string>): Option<Record> {
    if name.Some? && name.value in a.records then Some(a.records[name.value]) else None
  }

  function CitedRecord(b: Bundle, c: Citation): Option<Record> {
    RecordOf(ArtifactOf(b, c.artifact), c.record)
  }

  // -------------------------------------------------------------- verdict

  predicate SourceOpen(a: Artifact, claim: Claim) {
    a.project == claim.project && a.incognito == Bool(false)
  }

  /** The support is in the claim's project and scope, and the record is the version that was cited. */
  predicate Supported(digest: Record -> string, b: Bundle, claim: Claim, ref: string) {
    var c := CitationOf(b, ref);
    var record := CitedRecord(b, c);
    && SourceOpen(ArtifactOf(b, c.artifact), claim)
    && record.Some? && record.value.Fields?
    && Get(record.value.fields, "scope") == claim.scope
    && c.version == Some(digest(record.value))
  }

  function Values(b: Bundle, refs: seq<string>): seq<Option<Record>> {
    if refs == [] then [] else [CitedRecord(b, CitationOf(b, refs[0]))] + Values(b, refs[1..])
  }

  function Field(record: Option<Record>, key: string): Json {
    if record.Some? && record.value.Fields? then Get(record.value.fields, key) else Null
  }

  predicate AllAmounts(values: seq<Option<Record>>) {
    values == [] || (Field(values[0], "amount").Int? && AllAmounts(values[1..]))
  }

  function SumAmounts(values: seq<Option<Record>>): int
    requires AllAmounts(values)
  {
    if values == [] then 0 else Field(values[0], "amount").i + SumAmounts(values[1..])
  }

  predicate RuleHolds(claim: Claim, values: seq<Option<Record>>) {
    if claim.rule == "sum-amount" then AllAmounts(values) && claim.value == Int(SumAmounts(values))
    else if claim.rule == "copy-text" then
      |values| == 1 && Field(values[0], "text").Str? && claim.value == Field(values[0], "text")
    else false
  }

  predicate Verdict(digest: Record -> string, b: Bundle, claim: Claim) {
    && SourceOpen(ArtifactOf(b, Some(claim.artifact)), claim)
    && claim.supports != []
    && (forall ref :: ref in claim.supports ==> Supported(digest, b, claim, ref))
    && RuleHolds(claim, Values(b, claim.supports))
  }

  predicate Complete(b: Bundle, claim: Claim) {
    claim.supports != [] && forall ref :: ref in claim.supports ==> ref in b.citations
  }

  lemma ValuesFrom(b: Bundle, refs: seq<string>, k: nat)
    requires k < |refs|
    ensures Values(b, refs[k..]) == [CitedRecord(b, CitationOf(b, refs[k]))] + Values(b, refs[k + 1..])
  {
    assert refs[k..][1..] == refs[k + 1..];
  }

  /** The loop over one claim's supports; the first bad one ends it. */
  method CheckSupports(digest: Record -> string, b: Bundle, claim: Claim) returns (ok: bool, values: seq<Option<Record>>)
    ensures ok <==> forall ref :: ref in claim.supports ==> Supported(digest, b, claim, ref)
    ensures ok ==> values == Values(b, claim.supports)
  {
    values := [];
    for k := 0 to |claim.supports|
      invariant forall ref :: ref in claim.supports[..k] ==> Supported(digest, b, claim, ref)
      invariant values + Values(b, claim.supports[k..]) == Values(b, claim.supports)
    {
      var ref := claim.supports[k];
      var citation := CitationOf(b, ref);
      var source := ArtifactOf(b, citation.artifact);
      var record := RecordOf(source, citation.record);
      if source.project != claim.project || source.incognito != Bool(false)
         || record.None? || !record.value.Fields?
         || Get(record.value.fields, "scope") != claim.scope
         || citation.version != Some(digest(record.value))
      {
        assert !Supported(digest, b, claim, ref);
        return false, values;
      }
      ValuesFrom(b, claim.supports, k);
      assert values + ([record] + Values(b, claim.supports[k + 1..])) == (values + [record]) + Values(b, claim.supports[k + 1..]);
      assert claim.supports[..k + 1] == claim.supports[..k] + [ref];
      values := values + [record];
    }
    assert claim.supports[..|claim.supports|] == claim.supports;
    ok := true;
  }

  method Evaluate(digest: Record -> string, b: Bundle) returns (results: map<string, bool>)
    ensures results.Keys == b.claims.Keys
    ensures forall id :: id in b.claims ==> results[id] == Verdict(digest, b, b.claims[id])
  {
    results := map[];
    var left := b.claims.Keys;
    while left != {}
      invariant left <= b.claims.Keys && results.Keys == b.claims.Keys - left
      invariant forall id :: id in results ==> results[id] == Verdict(digest, b, b.claims[id])
      decreases left
    {
      var id :| id in left;
      var claim := b.claims[id];
      var output := ArtifactOf(b, Some(claim.artifact));
      var valid := output.project == claim.project && output.incognito == Bool(false) && claim.supports != [];
      var ok, values := CheckSupports(digest, b, claim);
      valid := valid && ok;
      if valid {
        valid := RuleHolds(claim, values);
      }
      results := results[id := valid];
      left := left - {id};
    }
  }

  // ---------------------------------------------------------- main results

  /** A verdict rests on the claim's own artifact, its citations and the cited records, and on nothing else. */
  lemma VerdictIsLocal(digest: Record -> string, b: Bundle, b': Bundle, claim: Claim)
    requires SourceOpen(ArtifactOf(b, Some(claim.artifact)), claim) <==> SourceOpen(ArtifactOf(b', Some(claim.artifact)), claim)
    requires forall ref :: ref in claim.supports ==>
               var c := CitationOf(b, ref);
               && CitationOf(b', ref) == c
               && CitedRecord(b', c) == CitedRecord(b, c)
               && (SourceOpen(ArtifactOf(b', c.artifact), claim) <==> SourceOpen(ArtifactOf(b, c.artifact), claim))
    ensures Verdict(digest, b, claim) == Verdict(digest, b', claim)
  {
    SameValues(b, b', claim.supports);
    assert forall ref :: ref in claim.supports ==> (Supported(digest, b, claim, ref) <==> Supported(digest, b', claim, ref));
  }

  lemma {:induction false} SameValues(b: Bundle, b': Bundle, refs: seq<string>)
    requires forall ref :: ref in refs ==> CitationOf(b', ref) == CitationOf(b, ref)
                                           && CitedRecord(b', CitationOf(b, ref)) == CitedRecord(b, CitationOf(b, ref))
    ensures Values(b, refs) == Values(b', refs)
  {
    if refs != [] {
      SameValues(b, b', refs[1..]);
    }
  }

  // ---------------------------------------------- a verdict, told from the data

  /** The citation leads to a record that is an object with these fields, in this artifact. */
  ghost predicate Leads(b: Bundle, ref: string, a: Artifact, record: Record) {
    && ref in b.citations && b.citations[ref].artifact.Some? && b.citations[ref].record.Some?
    && b.citations[ref].artifact.value in b.artifacts && a == b.artifacts[b.citations[ref].artifact.value]
    && b.citations[ref].record.value in a.records && record == a.records[b.citations[ref].record.value]
  }

  predicate HasField(record: Record, key: string, value: Json) {
    record.Fields? && key in record.fields && record.fields[key] == value
  }

  /**
   A support is good exactly if its citation leads to an object of an open artifact of
   the claim's project, in the claim's scope, with the digest that was cited.
   */
  lemma SupportedMeans(digest: Record -> string, b: Bundle, claim: Claim, ref: string)
    ensures Supported(digest, b, claim, ref) <==>
              exists a, record :: Leads(b, ref, a, record) && record.Fields?
                && a.project == claim.project && a.incognito == Bool(false)
                && (HasField(record, "scope", claim.scope) || ("scope" !in record.fields && claim.scope == Null))
                && b.citations[ref].version == Some(digest(record))
  {
    if Supported(digest, b, claim, ref) {
      var c := b.citations[ref];
      assert Leads(b, ref, b.artifacts[c.artifact.value], b.artifacts[c.artifact.value].records[c.record.value]);
    }
  }

  function Total(amounts: seq<int>): int {
    if amounts == [] then 0 else Total(amounts[..|amounts| - 1]) + amounts[|amounts| - 1]
  }

  lemma {:induction false} TotalFromFront(amounts: seq<int>)
    requires amounts != []
    ensures Total(amounts) == amounts[0] + Total(amounts[1..])
  {
    var n := |amounts| - 1;
    if n > 0 {
      TotalFromFront(amounts[..n]);
      assert amounts[..n][1..] == amounts[1..][..n - 1];
    }
  }

  /** The amounts the records hold, whole numbers all. */
  ghost predicate Amounts(values: seq<Option<Record>>, amounts: seq<int>) {
    |amounts| == |values| && forall k :: 0 <= k < |values| ==> values[k].Some? && HasField(values[k].value, "amount", Int(amounts[k]))
  }

  lemma {:induction false} SumMeans(values: seq<Option<Record>>)
    ensures AllAmounts(values) ==> exists amounts :: Amounts(values, amounts) && Total(amounts) == SumAmounts(values)
    ensures forall amounts :: Amounts(values, amounts) ==> AllAmounts(values) && Total(amounts) == SumAmounts(values)
  {
    if values == [] {
      assert Amounts(values, []);
    } else {
      SumMeans(values[1..]);
      if AllAmounts(values) {
        var rest :| Amounts(values[1..], rest) && Total(rest) == SumAmounts(values[1..]);
        var amounts := [Field(values[0], "amount").i] + rest;
        TotalFromFront(amounts);
        assert Amounts(values, amounts);
      }
      forall amounts | Amounts(values, amounts)
        ensures AllAmounts(values) && Total(amounts) == SumAmounts(values)
      {
        TotalFromFront(amounts);
        assert Amounts(values[1..], amounts[1..]);
      }
    }
  }

  /**
   The two rules: a sum is valid if every record holds a whole amount and they add up
   to the value; a copied text if there is one record and its text is the value. No
   other rule is.
   */
  lemma RuleMeans(claim: Claim, values: seq<Option<Record>>)
    ensures RuleHolds(claim, values) <==>
              || (claim.rule == "sum-amount" && exists amounts :: Amounts(values, amounts) && claim.value == Int(Total(amounts)))
              || (claim.rule == "copy-text" && |values| == 1 && values[0].Some? && claim.value.Str?
                  && HasField(values[0].value, "text", claim.value))
  {
    SumMeans(values);
  }

  /** Valid means: the claim's own artifact is open and of its project, there are supports, all good, and the rule holds of their records. */
  lemma VerdictMeans(digest: Record -> string, b: Bundle, claim: Claim)
    ensures Verdict(digest, b, claim) <==>
              && (if claim.artifact in b.artifacts
                  then b.artifacts[claim.artifact].project == claim.project && b.artifacts[claim.artifact].incognito == Bool(false)
                  else false)
              && |claim.supports| > 0
              && (forall k :: 0 <= k < |claim.supports| ==> Supported(digest, b, claim, claim.supports[k]))
              && RuleHolds(claim, Values(b, claim.supports))
    ensures |Values(b, claim.supports)| == |claim.supports|
    ensures forall k :: 0 <= k < |claim.supports| ==>
              Values(b, claim.supports)[k] == CitedRecord(b, CitationOf(b, claim.supports[k]))
  {
    ValuesAt(b, claim.supports);
  }

  lemma {:induction false} ValuesAt(b: Bundle, refs: seq<string>)
    ensures |Values(b, refs)| == |refs|
    ensures forall k :: 0 <= k < |refs| ==> Values(b, refs)[k] == CitedRecord(b, CitationOf(b, refs[k]))
  {
    if refs != [] {
      ValuesAt(b, refs[1..]);
    }
  }

  /** One source record changed, added or deleted; everything else stays. */
  function Edited(b: Bundle, artifact: string, name: string, record: Option<Record>): Bundle
    requires artifact in b.artifacts
  {
    var a := b.artifacts[artifact];
    var records := if record.Some? then a.records[name := record.value] else a.records - {name};
    b.(artifacts := b.artifacts[artifact := a.(records := records)])
  }

  predicate Cites(b: Bundle, claim: Claim, artifact: string, name: string) {
    exists ref :: ref in claim.supports && CitationOf(b, ref).artifact == Some(artifact) && CitationOf(b, ref).record == Some(name)
  }

  /**
   In a bundle in which every claim is valid, changing (or deleting) one source
   record makes exactly the claims that cite it invalid. Digests are taken to be
   collision-free.
   */
  lemma EditInvalidatesExactlyItsCiters(digest: Record -> string, b: Bundle, artifact: string, name: string, record: Option<Record>)
    requires forall x, y :: digest(x) == digest(y) ==> x == y
    requires forall id :: id in b.claims ==> Verdict(digest, b, b.claims[id])
    requires artifact in b.artifacts && RecordOf(b.artifacts[artifact], Some(name)) != record
    ensures var after := Edited(b, artifact, name, record);
            forall id :: id in b.claims ==>
              (Verdict(digest, after, b.claims[id]) <==> !Cites(b, b.claims[id], artifact, name))
  {
    var after := Edited(b, artifact, name, record);
    forall id | id in b.claims
      ensures Verdict(digest, after, b.claims[id]) <==> !Cites(b, b.claims[id], artifact, name)
    {
      var claim := b.claims[id];
      if Cites(b, claim, artifact, name) {
        var ref :| ref in claim.supports && CitationOf(b, ref).artifact == Some(artifact) && CitationOf(b, ref).record == Some(name);
        assert Supported(digest, b, claim, ref);
        assert CitedRecord(after, CitationOf(b, ref)) == record;
        assert !Supported(digest, after, claim, ref);
      } else {
        VerdictIsLocal(digest, b, after, claim);
      }
    }
  }

  lemma CompleteMeans(b: Bundle, claim: Claim)
    ensures Complete(b, claim) <==> |claim.supports| > 0 && forall k :: 0 <= k < |claim.supports| ==> claim.supports[k] in b.citations.Keys
  {
  }

  /** The presence-only check accepts every valid claim, and no edit of a record can ever make it object. */
  lemma CompletenessIsWeaker(digest: Record -> string, b: Bundle, claim: Claim, artifact: string, name: string, record: Option<Record>)
    ensures Verdict(digest, b, claim) ==> Complete(b, claim)
    ensures artifact in b.artifacts ==> Complete(Edited(b, artifact, name, record), claim) == Complete(b, claim)
  {
    if Verdict(digest, b, claim) {
      forall ref | ref in claim.supports
        ensures ref in b.citations
      {
        assert Supported(digest, b, claim, ref);
      }
    }
  }
}
