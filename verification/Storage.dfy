// src/oidc/storage.rs: the in-memory token store.
module Storage {
  import opened Wrappers
  import opened Code

  datatype TokenRecord = TokenRecord(
    subject: string,
    clientId: string,
    scope: seq<string>,
    groups: seq<string>,
    expiresAt: Time,
    jti: string)

  // The value of the two maps. The map of consumed codes has no values, so it
  // is the set of its keys.
  datatype StoreState = StoreState(records: map<string, TokenRecord>, consumed: set<string>) {

    function Issue(record: TokenRecord): StoreState {
      this.(records := records[record.jti := record])
    }

    function Revoke(jti: string): StoreState {
      this.(records := records - {jti})
    }

    function Consume(key: string): StoreState {
      this.(consumed := consumed + {key})
    }

    function Lookup(jti: string): Option<TokenRecord> {
      if jti in records then Some(records[jti]) else None
    }

    function After(event: StoreEvent): StoreState {
      match event
      case Issuing(record) => Issue(record)
      case Revoking(jti) => Revoke(jti)
      case Consuming(key) => Consume(key)
    }
  }

  const EMPTY := StoreState(map[], {})

  // The calls that change the store.
  datatype StoreEvent = Issuing(record: TokenRecord) | Revoking(jti: string) | Consuming(key: string)

  function Replay(history: seq<StoreEvent>): StoreState {
    if history == [] then EMPTY
    else Replay(history[..|history| - 1]).After(history[|history| - 1])
  }

  predicate Touches(event: StoreEvent, jti: string) {
    match event
    case Issuing(record) => record.jti == jti
    case Revoking(j) => j == jti
    case Consuming(_) => false
  }

  // Call i issued this record and no later call issues or revokes its jti.
  ghost predicate LatestAt(history: seq<StoreEvent>, i: nat, record: TokenRecord) {
    && i < |history| && history[i] == Issuing(record)
    && forall k | i < k < |history| :: !Touches(history[k], record.jti)
  }

  // Looking up a jti gives the record of the latest issue of that jti, unless
  // it was revoked since; a key is consumed when some call consumed it.
  lemma {:induction false} LookupIsLatest(history: seq<StoreEvent>, jti: string, record: TokenRecord)
    ensures Replay(history).Lookup(jti) == Some(record) <==>
              record.jti == jti && exists i: nat :: LatestAt(history, i, record)
    ensures forall key :: key in Replay(history).consumed <==> Consuming(key) in history
  {
    if history != [] {
      var n := |history| - 1;
      var init, event := history[..n], history[n];
      assert history == init + [event];
      LookupIsLatest(init, jti, record);
      if i: nat :| LatestAt(init, i, record) && !Touches(event, record.jti) {
        assert LatestAt(history, i, record);
      }
      if i: nat :| LatestAt(history, i, record) && i < n {
        assert LatestAt(init, i, record);
      }
      if event == Issuing(record) {
        assert LatestAt(history, n, record);
      }
    }
  }

  class InMemoryTokenStore {
    var records: map<string, TokenRecord>
    var consumedCodes: set<string>
    ghost var history: seq<StoreEvent>

    function State(): StoreState
      reads this
    {
      StoreState(records, consumedCodes)
    }

    // The maps are what the calls so far leave.
    ghost predicate Valid()
      reads this
    {
      State() == Replay(history)
    }

    constructor ()
      ensures Valid() && history == [] && State() == EMPTY
    {
      records := map[];
      consumedCodes := {};
      history := [];
    }

    method Issue(jti: string, subject: string, clientId: string, scope: seq<string>, groups: seq<string>,
                 expiresAt: Time)
      requires Valid()
      modifies this
      ensures Valid()
      ensures history == old(history) + [Issuing(TokenRecord(subject, clientId, scope, groups, expiresAt, jti))]
      ensures records == old(records)[jti := TokenRecord(subject, clientId, scope, groups, expiresAt, jti)]
      ensures consumedCodes == old(consumedCodes)
    {
      var record := TokenRecord(subject, clientId, scope, groups, expiresAt, jti);
      records := records[jti := record];
      history := history + [Issuing(record)];
    }

    method Lookup(jti: string) returns (found: Option<TokenRecord>)
      requires Valid()
      ensures found == State().Lookup(jti)
      ensures found == None <==> forall record, i: nat :: LatestAt(history, i, record) ==> record.jti != jti
      ensures found.Some? ==> found.value.jti == jti && exists i: nat :: LatestAt(history, i, found.value)
    {
      found := if jti in records then Some(records[jti]) else None;
      forall record
        ensures found == Some(record) <==> record.jti == jti && exists i: nat :: LatestAt(history, i, record)
      {
        LookupIsLatest(history, jti, record);
      }
      if found == None {
        forall record, i: nat | LatestAt(history, i, record)
          ensures record.jti != jti
        {
          assert found != Some(record);
        }
      }
    }

    method Revoke(jti: string) returns (removed: bool)
      requires Valid()
      modifies this
      ensures Valid() && history == old(history) + [Revoking(jti)]
      ensures removed <==> jti in old(records)
      ensures records == old(records) - {jti} && consumedCodes == old(consumedCodes)
    {
      removed := jti in records;
      records := records - {jti};
      history := history + [Revoking(jti)];
    }

    method ConsumeCode(key: string) returns (first: bool)
      requires Valid()
      modifies this
      ensures Valid() && history == old(history) + [Consuming(key)]
      ensures first <==> key !in old(consumedCodes)
      ensures first <==> Consuming(key) !in old(history)
      ensures consumedCodes == old(consumedCodes) + {key} && records == old(records)
    {
      LookupIsLatest(history, "", TokenRecord("", "", [], [], 0, ""));
      first := key !in consumedCodes;
      consumedCodes := consumedCodes + {key};
      history := history + [Consuming(key)];
    }
  }
}
