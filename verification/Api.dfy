/** Requests, log commands and watch events. */
module Api {
  import opened Text

  datatype EventType = EventInvalid | EventPut | EventDelete

  datatype WatchEvent = WatchEvent(key: string, value: string, revision: int, kind: EventType)

  /** A comparison of a transaction condition; `OtherCompare` is any code outside the six known ones. */
  datatype CompareOp = EQ | NEQ | GTE | LTE | Exists | NotExists | OtherCompare(code: int)

  datatype TxnCondition = TxnCondition(key: string, compare: CompareOp, value: string)

  /** The kind of a transaction operation; `OpOther` is any code outside the four known ones. */
  datatype TxnOpType = OpPut | OpDelete | OpCas | OpAppend | OpOther(code: int)

  datatype TxnOp = TxnOp(op: TxnOpType, key: string, value: string, compareValue: string, leaseId: int)

  datatype TxnOpResult = TxnOpResult(key: string, prevValue: string, keyFound: bool)

  datatype TxnResult = TxnResult(succeeded: bool, results: seq<TxnOpResult>)

  /** What a command asks for: its kind, and the fields that kind reads. */
  datatype Operation =
    | Invalid
    | Get(key: string)
    | Put(key: string, value: string, leaseId: int)
    | Append(key: string, value: string)
    | Cas(key: string, compare: string, value: string)
    | List(prefix: string, limit: int, keyAfter: string)
    | Txn(conditions: seq<TxnCondition>, success: seq<TxnOp>, failure: seq<TxnOp>)
    | LeaseGrant(ttl: int)
    | LeaseKeepAlive(leaseId: int)
    | LeaseRevoke(leaseId: int)
    | LeaseExpiry(leaseIds: seq<int>)
  {
    /** The kinds that raise the revision. */
    predicate IsWrite() {
      Put? || Append? || Cas? || Txn? || LeaseRevoke? || LeaseExpiry?
    }
  }

  datatype Command = Command(op: Operation, clientId: int, requestId: int)

  /** The result fields that applying an operation fills in. */
  datatype Answer = Answer(value: string, found: bool, pairs: map<string, string>, txn: Option<TxnResult>)

  const NoAnswer := Answer("", false, map[], None)

  /** The command as it is handed back to the waiting request. */
  datatype Reply = Reply(answer: Answer, revision: int, duplicate: bool)
}
