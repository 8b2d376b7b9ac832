/** The record shapes of the files under `src/interfaces`, and the messages the replica
    emits, each as a value. */
module Interfaces {
  import opened Wrappers

  /** Key -> the least version of that key the holder has observed. */
  type CausalMetadata = map<string, int>

  /** A write's version stamp and the dependencies the writer declared. The
      metadata is `None` when the writer passed none: the peer handlers and
      the queue call the store without it. */
  datatype CausalContext = CausalContext(timestamp: int, causalMetadata: Option<CausalMetadata>)

  /** A stored record; `val == None` is a tombstone. */
  datatype ValWithCausalContext = ValWithCausalContext(val: Option<string>, causalContext: CausalContext)

  /** The replica's store: a plain object from key to record. */
  type KvStore = map<string, ValWithCausalContext>

  /** One shard of a view: its id and its member addresses, in order. */
  datatype Shard = Shard(shardId: int, nodes: seq<string>)

  /** A vector clock on the wire: `Array.from(map)`, a list of pairs. */
  type ClockPairs = seq<(string, int)>

  /** What a deferred peer operation does once applied. A `kvs` entry carries
      the store its sender's list parses to. */
  datatype QueueAction =
    | WriteAction(key: string, val: Option<string>)
    | DeleteAction(key: string)
    | KvsAction(kvs: KvStore)

  /** A deferred peer operation, with the clock its sender attached. */
  datatype QueueEntry = QueueEntry(vc: Option<ClockPairs>, action: QueueAction, sender: string)

  /** Everything the modelled code hands to the transport or to the local
      event emitter instead of computing with it. Clocks are sent as maps. */
  datatype Emission =
    | KvsWrite(key: string, val: ValWithCausalContext, sender: string, shardId: int)           // `kvs:write` from writeKv
    | KvsDelete(key: string, causalContext: CausalContext, sender: string, shardId: int)       // `kvs:delete` from removeKv
    | KvsWriteBack(key: string, val: ValWithCausalContext, sender: string, clock: map<string, int>)  // `kvs:write` from onKvsWrite
    | CausalUpdateKey(found: bool, key: string, value: Option<ValWithCausalContext>, sender: string, clock: map<string, int>)
    | CausalUpdateKvs(kvs: seq<(string, ValWithCausalContext)>, sender: string, clock: map<string, int>)
    | KeyConsistent(key: string, storedVal: Option<string>, found: bool)                           // local `causal:<key>-consistent`
    | KvsConsistent(count: nat, keys: seq<string>)                                            // local `causal:kvs-consistent`
    | ShutdownServer
    | DisconnectClient
}
