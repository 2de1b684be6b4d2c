/** The metadata task as one worker runs it, on the contract table and the negative cache. */
module ContractMetadataService {
  import opened Wrappers
  import opened Encoding
  import opened ContractRows
  import opened MetadataDownload
  import opened Runs

  function RowOrNew(rows: map<Key, Row>, key: Key): Row {
    if key in rows then rows[key] else NEW_ROW
  }

  class Worker {
    var rows: map<Key, Row>
    var refused: set<(Key, nat)>
    /** The addresses with cached responses, for all chains. */
    var responses: set<Bytes>

    constructor (rows: map<Key, Row>, responses: set<Bytes>)
      ensures this.rows == rows && refused == {} && this.responses == responses
    {
      this.rows := rows;
      refused := {};
      this.responses := responses;
    }

    /** A refusal is answered from the cache, a fresh one is stored; a permission is never stored. */
    method ShouldAttemptDownload(key: Key, maxRetries: nat) returns (attempt: bool)
      modifies this`refused
      ensures attempt <==> (key, maxRetries) !in old(refused) && !Exhausted(rows, key, maxRetries)
      ensures refused == if attempt then old(refused) else old(refused) + {(key, maxRetries)}
    {
      if (key, maxRetries) in refused {
        return false;
      }
      if key in rows && (rows[key].fetchRetries > maxRetries || rows[key].abiId.Some?) {
        refused := refused + {(key, maxRetries)};
        return false;
      }
      return true;
    }

    /** Links the stored ABI, the name and an implementation that is neither empty nor null, and leaves
        the retries; or counts a failure and leaves the rest. Other rows are untouched. */
    method ProcessContractMetadata(key: Key, fetched: Fetched) returns (stored: bool)
      modifies this`rows
      ensures rows == old(rows)[key := WriteOutcome(RowOrNew(old(rows), key), RowOrNew(old(rows), key), fetched)]
      ensures stored == (fetched.Metadata? && fetched.usable.Stored?)
      ensures rows.Keys == old(rows).Keys + {key} && forall k | k in old(rows) && k != key :: rows[k] == old(rows)[k]
      ensures stored ==>
                && rows[key].abiId == Some(fetched.usable.abiId) && rows[key].name == fetched.name
                && rows[key].fetchRetries == (if key in old(rows) then old(rows)[key].fetchRetries else 0)
                && rows[key].implementation
                   == (if NamesImplementation(fetched.implementation) then fetched.implementation
                       else if key in old(rows) then old(rows)[key].implementation else None)
      ensures !stored ==>
                if key in old(rows) then
                  rows[key] == old(rows)[key].(fetchRetries := old(rows)[key].fetchRetries + 1)
                else rows[key] == Row(None, 1, None, None)
      ensures SettledAt(rows, key)
    {
      FreshOutcome(RowOrNew(rows, key), fetched);
      if key !in rows {
        rows := rows[key := NEW_ROW];
      }
      var contract := rows[key];
      if fetched.Metadata? {
        if fetched.usable.SourceMissing? || fetched.usable.SourceUnknown? || fetched.usable.AbiEmpty? {
          rows := rows[key := contract.(fetchRetries := contract.fetchRetries + 1)];
          return false;
        }
        contract := contract.(abiId := Some(fetched.usable.abiId), name := fetched.name);
        if ProxyImplementation(fetched).Some? {
          contract := contract.(implementation := fetched.implementation);
        }
      } else {
        contract := contract.(fetchRetries := contract.fetchRetries + 1);
      }
      rows := rows[key := contract];
      stored := fetched.Metadata?;
    }

    /** One message. `fetched` is what the explorers answer if they are asked. The cached responses of
        the address are dropped after a success. */
    method GetContractMetadataTask(key: Key, skipAttemptDownload: bool, fetched: Fetched)
      returns (followUp: Option<Key>)
      modifies this
      ensures var attempt := skipAttemptDownload
                             || ((key, 0) !in old(refused) && !Exhausted(old(rows), key, 0));
              if attempt then
                && SettledAt(rows, key)
                && rows == old(rows)[key := WriteOutcome(RowOrNew(old(rows), key), RowOrNew(old(rows), key), fetched)]
                && responses == (if Succeeds(fetched) then old(responses) - {key.address} else old(responses))
                && followUp == (if fetched.Metadata? && NamesImplementation(fetched.implementation) then
                                  Some(Key(fetched.implementation.value, key.chain)) else None)
              else rows == old(rows) && responses == old(responses) && followUp == None && (key, 0) in refused
    {
      var shouldDownload := skipAttemptDownload;
      if !shouldDownload {
        shouldDownload := ShouldAttemptDownload(key, 0);
      }
      followUp := None;
      if shouldDownload {
        var stored := ProcessContractMetadata(key, fetched);
        if stored {
          responses := responses - {key.address};
        }
        var implementation := ProxyImplementation(fetched);
        if fetched.Metadata? && fetched.implementation.Some? {
          ProxyImplementationIff(fetched, fetched.implementation.value);
        }
        if implementation.Some? {
          followUp := Some(Key(implementation.value, key.chain));
        }
      }
    }
  }

  /******* The same task as a token among others *******/

  /** From the start of the download to the write. */
  lemma DownloadAlone(s: State, i: nat, fetched: Fetched) returns (steps: seq<Step>)
    requires i < |s.tokens| && s.tokens[i].phase.Fetching?
    ensures IsRun(Apply, s, steps)
    ensures var key := s.tokens[i].key;
            Final(Apply, s, steps)
            == s.(rows := s.rows[key := WriteOutcome(RowOrNew(s.rows, key), RowOrNew(s.rows, key), fetched)],
                  tokens := s.tokens[i := s.tokens[i].(phase := FollowingUp(fetched))])
  {
    var go, key := Advance(i, fetched), s.tokens[i].key;
    var s1 := Apply(s, go);
    var s2 := Apply(s1, go);
    Unfold(Apply, [s, s1, s2], [go, go]);
    steps := [go, go];
    var s3 := s2;
    if key in s.rows {
      s3 := Apply(s2, go);
      Extend(Apply, s, steps, go);
      steps := steps + [go];
    }
    assert s3.tokens == s.tokens[i := s.tokens[i].(phase := Writing(fetched, RowOrNew(s.rows, key)))];
    assert Enabled(s3, go);
    Extend(Apply, s, steps, go);
    steps := steps + [go];
  }

  /** The download and the message for the implementation, if there is one. */
  lemma DownloadAndFollowUp(s: State, i: nat, fetched: Fetched) returns (steps: seq<Step>)
    requires i < |s.tokens| && s.tokens[i].phase.Fetching?
    ensures IsRun(Apply, s, steps)
    ensures var t, key := s.tokens[i], s.tokens[i].key;
            Final(Apply, s, steps)
            == s.(rows := s.rows[key := WriteOutcome(RowOrNew(s.rows, key), RowOrNew(s.rows, key), fetched)],
                  tokens := s.tokens[i := FollowUp(t, fetched)])
  {
    steps := DownloadAlone(s, i, fetched);
    var t := Final(Apply, s, steps);
    assert Enabled(t, Advance(i, fetched)) && Apply(t, Advance(i, fetched)).rows == t.rows;
    Extend(Apply, s, steps, Advance(i, fetched));
    steps := steps + [Advance(i, fetched)];
  }

  /** The token after its download: the message for the implementation, or done. */
  function FollowUp(t: Token, fetched: Fetched): Token {
    match ProxyImplementation(fetched)
    case None => t.(phase := Done)
    case Some(address) => Token(Key(address, t.key.chain), Checked, Queued, t.attempted)
  }

  /** A token that steps alone does what the method `GetContractMetadataTask` promises, the follow-up
      for a proxy included. */
  lemma TokenAloneDoesTheTask(s: State, i: nat, fetched: Fetched) returns (steps: seq<Step>)
    requires i < |s.tokens| && s.tokens[i] == NewToken(s.tokens[i].key, s.tokens[i].origin)
    ensures IsRun(Apply, s, steps)
    ensures var key := s.tokens[i].key;
            Final(Apply, s, steps)
            == if !s.tokens[i].origin.Checked? || (key !in s.refused && !Exhausted(s.rows, key, 0)) then
                 s.(rows := s.rows[key := WriteOutcome(RowOrNew(s.rows, key), RowOrNew(s.rows, key), fetched)],
                    tokens := s.tokens[i := FollowUp(StartDownload(s.tokens[i]), fetched)])
               else s.(refused := s.refused + {key}, tokens := s.tokens[i := s.tokens[i].(phase := Done)])
  {
    var go, key := Advance(i, fetched), s.tokens[i].key;
    var s1 := Apply(s, go);
    OneStep(Apply, s, go);
    steps := [go];
    if s1.tokens[i].phase.CheckingRow? {
      var s2 := Apply(s1, go);
      Extend(Apply, s, steps, go);
      steps := steps + [go];
      if s2.tokens[i].phase.Refusing? {
        assert Enabled(s2, go);
        Extend(Apply, s, steps, go);
        steps := steps + [go];
      } else {
        var rest := DownloadAndFollowUp(s2, i, fetched);
        Append(Apply, s, steps, rest);
        steps := steps + rest;
      }
    } else if s1.tokens[i].phase.Fetching? {
      var rest := DownloadAndFollowUp(s1, i, fetched);
      Append(Apply, s, steps, rest);
      steps := steps + rest;
    } else {
      assert s.refused == s.refused + {key};
    }
  }

  /** The refresh of a proxy downloads it without a check, settled or not: the implementation it finds
      replaces the one recorded. */
  lemma ProxyRefresh(s: State, key: Key, fetched: Fetched) returns (steps: seq<Step>)
    requires key in s.rows && s.rows[key].implementation.Some?
    requires Succeeds(fetched) && NamesImplementation(fetched.implementation)
    ensures IsRun(Apply, s, steps)
    ensures var t := Final(Apply, s, steps);
            key in t.rows && t.rows[key].implementation == fetched.implementation
            && t.rows[key].abiId == Some(fetched.usable.abiId)
  {
    var i, t := |s.tokens|, Apply(s, SendProxy(key));
    assert t.tokens[i] == NewToken(key, ProxyScan);
    OneStep(Apply, s, SendProxy(key));
    var rest := TokenAloneDoesTheTask(t, i, fetched);
    Append(Apply, s, [SendProxy(key)], rest);
    steps := [SendProxy(key)] + rest;
    FreshOutcome(s.rows[key], fetched);
  }
}
