/** Contract ABIs and the dictionary from 4-byte selectors to functions that one ABI defines. */
module Abis {
  import opened Encoding

  type Selector = s: Bytes | |s| == 4 witness [0, 0, 0, 0]

  datatype AbiInput = AbiInput(name: string, kind: string)

  /** A function of an ABI. The selector, a hash of the signature, is carried as a field. */
  datatype AbiFunction = AbiFunction(selector: Selector, name: string, inputs: seq<AbiInput>)

  datatype AbiEntry = FunctionEntry(fn: AbiFunction) | OtherEntry(kind: string)

  type Abi = seq<AbiEntry>

  /** A row of the `abi` table. */
  datatype AbiRow = AbiRow(id: nat, relevance: int, abi: Abi)

  type Index = map<Bytes, AbiFunction>

  /** The dictionary comprehension over the function entries: a later entry overwrites. */
  function SelectorMap(abi: Abi): Index {
    if abi == [] then map[]
    else
      var earlier := SelectorMap(abi[..|abi| - 1]);
      match abi[|abi| - 1]
      case FunctionEntry(fn) => earlier[fn.selector := fn]
      case OtherEntry(_) => earlier
  }

  predicate Defines(abi: Abi, selector: Bytes) {
    selector in SelectorMap(abi)
  }

  ghost predicate IsLastEntryFor(abi: Abi, i: int, selector: Bytes) {
    && 0 <= i < |abi| && abi[i].FunctionEntry? && abi[i].fn.selector == selector
    && forall j | i < j < |abi| :: abi[j].FunctionEntry? ==> abi[j].fn.selector != selector
  }

  /** An ABI maps a selector to the last function entry that carries it, and maps nothing else. */
  lemma {:induction false} SelectorMapContent(abi: Abi, selector: Bytes)
    ensures Defines(abi, selector) <==> exists i :: IsLastEntryFor(abi, i, selector)
    ensures forall i | IsLastEntryFor(abi, i, selector) :: SelectorMap(abi)[selector] == abi[i].fn
  {
    if abi == [] {
    } else {
      var n := |abi| - 1;
      var init := abi[..n];
      SelectorMapContent(init, selector);
      if abi[n].FunctionEntry? && abi[n].fn.selector == selector {
        assert IsLastEntryFor(abi, n, selector);
      } else {
        forall i ensures IsLastEntryFor(abi, i, selector) <==> IsLastEntryFor(init, i, selector) {
        }
      }
    }
  }
}
