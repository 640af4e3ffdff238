/**
 * `createMulticall` of app/src/helpers/createMulticall.ts: one call record
 * per function name, in the order of the names, each a copy of the shared
 * contract parameters with its own `functionName`. The pages read the
 * multicall results back by position, so the order is part of the contract.
 */
module CreateMulticall {

  /** A JavaScript property value: a string, or any other value (an ABI, an address object). */
  datatype Value = Text(s: string) | Other(id: nat)

  /** A plain JavaScript object, as its own enumerable properties. */
  type Record = map<string, Value>

  const FunctionNameKey := "functionName"

  /**
   * `{ ...contractParams, functionName: name }`: every property of
   * `contractParams`, with `functionName` set (or overridden) to `name`.
   */
  function CallRecord(contractParams: Record, name: string): (r: Record)
    ensures r.Keys == contractParams.Keys + {FunctionNameKey}
    ensures r[FunctionNameKey] == Text(name)
    ensures forall k :: k in contractParams && k != FunctionNameKey ==> r[k] == contractParams[k]
  {
    contractParams[FunctionNameKey := Text(name)]
  }

  /**
   * The loop pushes one record per name. The result has one element per
   * name, element i names params[i], and carries every other property of
   * `contractParams` unchanged; `contractParams` itself is a value and
   * cannot be altered.
   */
  method CreateMulticall(contractParams: Record, params: seq<string>) returns (multicall: seq<Record>)
    ensures |multicall| == |params|
    ensures forall i :: 0 <= i < |params| ==> multicall[i] == CallRecord(contractParams, params[i])
    ensures forall i :: 0 <= i < |params| ==>
      FunctionNameKey in multicall[i] && multicall[i][FunctionNameKey] == Text(params[i])
    ensures forall i, k :: 0 <= i < |params| && k in contractParams && k != FunctionNameKey ==>
      k in multicall[i] && multicall[i][k] == contractParams[k]
  {
    multicall := [];
    for n := 0 to |params|
      invariant |multicall| == n
      invariant forall i :: 0 <= i < n ==> multicall[i] == CallRecord(contractParams, params[i])
    {
      multicall := multicall + [CallRecord(contractParams, params[n])];
    }
  }
}
