/**
 * The router engine behind libi2pd/api.h, as the C bridge sees it: an object whose
 * answers are fixed when it is made (how many client and server tunnels there are, what
 * a tunnel lookup or a key load reports and writes), and which records every call it
 * receives, in order. Nothing of what the engine does inside is modelled.
 */
module Engine {
  import opened Wrappers

  /** C `int` on the platforms i2pd targets. */
  newtype int32 = x: int | -0x8000_0000 <= x < 0x8000_0000

  /** C `uint16_t`, the width of the signature and crypto type arguments. */
  newtype uint16 = x: int | 0 <= x < 0x1_0000

  datatype TunnelKind = Client | Server

  datatype TunnelField = Name | Ident

  /**
   * What an engine call that is handed the string buffer reports: its return code, and
   * what it left in the buffer (None when it did not touch it).
   */
  datatype Reply = Reply(code: int32, written: Option<string>)

  /**
   * One call into the engine. `argv` is the argument vector handed to InitI2P: None for a
   * null pointer, otherwise the slots of the array it points to.
   */
  datatype Call =
    | Init(argc: int32, argv: Option<seq<Option<string>>>, appName: string)
    | Count(kind: TunnelKind)
    | Lookup(kind: TunnelKind, field: TunnelField, index: int32)
    | LoadKeys(filename: string, sigType: uint16, cryptoType: uint16)

  class Api {
    const clientCount: int32
    const serverCount: int32
    /** The reply to a query for one field of the tunnel at an index. */
    const tunnel: (TunnelKind, TunnelField, int32) -> Reply
    /** The reply to loading the keys in a file with the given signature and crypto types. */
    const keys: (string, uint16, uint16) -> Reply
    /** Every call received so far, oldest first. */
    var calls: seq<Call>

    function CountOf(kind: TunnelKind): int32
      reads this
    {
      match kind
      case Client => clientCount
      case Server => serverCount
    }

    constructor(clientCount: int32, serverCount: int32,
                tunnel: (TunnelKind, TunnelField, int32) -> Reply,
                keys: (string, uint16, uint16) -> Reply)
      ensures this.clientCount == clientCount && this.serverCount == serverCount
      ensures this.tunnel == tunnel && this.keys == keys
      ensures calls == []
    {
      this.clientCount, this.serverCount := clientCount, serverCount;
      this.tunnel, this.keys := tunnel, keys;
      calls := [];
    }

    /** api.h:23; the log stream argument is always null from the bridge. */
    method InitI2P(argc: int32, argv: Option<seq<Option<string>>>, appName: string)
      modifies this
      ensures calls == old(calls) + [Init(argc, argv, appName)]
    {
      calls := calls + [Init(argc, argv, appName)];
    }

    /** api.h:32-33 */
    method GetTunnelsCount(kind: TunnelKind) returns (n: int32)
      modifies this
      ensures n == CountOf(kind)
      ensures calls == old(calls) + [Count(kind)]
    {
      n := CountOf(kind);
      calls := calls + [Count(kind)];
    }

    /**
     * api.h:34-37: the engine is handed the buffer `buf` by reference; `buf'` is what is in
     * it afterwards.
     */
    method GetTunnelsField(buf: string, kind: TunnelKind, field: TunnelField, index: int32)
      returns (code: int32, buf': string)
      modifies this
      ensures code == tunnel(kind, field, index).code
      ensures buf' == tunnel(kind, field, index).written.GetOr(buf)
      ensures calls == old(calls) + [Lookup(kind, field, index)]
    {
      var reply := tunnel(kind, field, index);
      code, buf' := reply.code, reply.written.GetOr(buf);
      calls := calls + [Lookup(kind, field, index)];
    }

    /** api.h:53, with the buffer handed over as in GetTunnelsField. */
    method LoadPrivateKeysFromFile(buf: string, filename: string, sigType: uint16, cryptoType: uint16)
      returns (code: int32, buf': string)
      modifies this
      ensures code == keys(filename, sigType, cryptoType).code
      ensures buf' == keys(filename, sigType, cryptoType).written.GetOr(buf)
      ensures calls == old(calls) + [LoadKeys(filename, sigType, cryptoType)]
    {
      var reply := keys(filename, sigType, cryptoType);
      code, buf' := reply.code, reply.written.GetOr(buf);
      calls := calls + [LoadKeys(filename, sigType, cryptoType)];
    }
  }
}
