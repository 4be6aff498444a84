/**
 * The C entry points of libi2pd_wrapper/capi.cpp: C_InitI2P, the tunnel count and
 * tunnel Name/Ident queries and C_LoadPrivateKeysFromFile, over the engine of api.h and
 * the one global string buffer RET_STR that every string result points into.
 *
 * A `const char *` result is an Option<string>: None is NULL, Some(s) is a pointer to
 * RET_STR while it holds s.
 */
module CApi {
  import opened Wrappers
  import opened Tokenizer
  import opened Engine

  /** The delimiter C_InitI2P splits its argument string on (capi.cpp:77). */
  const Space: char := ' '

  /**
   * A log of engine calls in which every tunnel lookup directly follows a count query for
   * the same kind of tunnel, and asks for an index below the count that query returned.
   */
  ghost predicate GuardedLookups(api: Api, calls: seq<Call>)
    reads api
  {
    forall i :: 0 <= i < |calls| && calls[i].Lookup? ==>
      0 < i && calls[i - 1] == Count(calls[i].kind) && calls[i].index < api.CountOf(calls[i].kind)
  }

  /**
   * How the bridge turns an engine return code into a `const char *`: RET_STR's text when
   * the engine answered 1, and NULL for every other code.
   */
  function ToCString(code: int32, buf: string): (r: Option<string>)
    ensures r.Some? <==> code == 1
    ensures r.Some? ==> r.value == buf
  {
    if code == 1 then Some(buf) else None
  }

  class Bridge {
    /** RET_STR (capi.cpp:16). */
    var retStr: string
    /** The engine the bridge forwards to. */
    const api: Api

    ghost predicate Valid()
      reads this, api
    {
      GuardedLookups(api, api.calls)
    }

    /** Program start: RET_STR is an empty std::string and the engine has not been called. */
    constructor(api: Api)
      requires api.calls == []
      ensures this.api == api && retStr == []
      ensures Valid()
    {
      this.api := api;
      retStr := [];
    }

    /**
     * C_InitI2P: copy `argv` (strdup), split the copy on spaces and hand the vector to the
     * engine together with the caller's `argc`. `mallocFails` stands for malloc returning
     * NULL inside str_split, in which case the engine is handed a null vector. The build is
     * taken to have assertions off (NDEBUG): with them on, str_split aborts at capi.cpp:63
     * on text that is not well formed, before the engine is called.
     */
    method InitI2P(argc: int32, argv: array<char>, appName: string, mallocFails: bool)
      requires Valid() && NUL !in argv[..]
      modifies api
      ensures Valid()
      ensures unchanged(argv) && retStr == old(retStr)
      ensures |api.calls| == |old(api.calls)| + 1 && api.calls[..|old(api.calls)|] == old(api.calls)
      ensures var call, toks := api.calls[|api.calls| - 1], Tokens(argv[..], Space);
        call.Init? && call.argc == argc && call.appName == appName &&
        (call.argv.None? <==> mallocFails) &&
        (call.argv.Some? ==>
           |call.argv.value| == Capacity(argv[..], Space) && |toks| < |call.argv.value| &&
           call.argv.value[..|toks| + 1] == Vector(toks) &&
           (|toks| + 1 == |call.argv.value| <==> WellFormed(argv[..], Space)))
    {
      ghost var text := argv[..];
      ghost var toks := Tokens(text, Space);
      var vargs := new char[argv.Length](i reads argv requires 0 <= i < argv.Length => argv[i]);
      assert vargs[..] == text;
      var args := StrSplit(vargs, Space, mallocFails);
      var vector := match args
        case None => None
        case Some(a) => Some(a[..]);
      assert vector.None? <==> mallocFails;
      assert vector.Some? ==>
        |vector.value| == Capacity(text, Space) && |toks| < |vector.value| &&
        vector.value[..|toks| + 1] == Vector(toks) &&
        (|toks| + 1 == |vector.value| <==> WellFormed(text, Space));
      ghost var before := api.calls;
      api.InitI2P(argc, vector, appName);
      assert api.calls[..|before|] == before;
    }

    /** C_GetClientTunnelsCount: the engine's count, unchanged. */
    method GetClientTunnelsCount() returns (n: int32)
      requires Valid()
      modifies api
      ensures Valid()
      ensures n == api.clientCount && retStr == old(retStr)
      ensures api.calls == old(api.calls) + [Count(Client)]
    {
      n := api.GetTunnelsCount(Client);
    }

    /** C_GetServerTunnelsCount: the engine's count, unchanged. */
    method GetServerTunnelsCount() returns (n: int32)
      requires Valid()
      modifies api
      ensures Valid()
      ensures n == api.serverCount && retStr == old(retStr)
      ensures api.calls == old(api.calls) + [Count(Server)]
    {
      n := api.GetTunnelsCount(Server);
    }

    /**
     * The outcome of an indexed tunnel query: below the count, the engine is asked and may
     * rewrite RET_STR, and the result is RET_STR exactly when it answered 1; otherwise only
     * the count was asked for, and the result is NULL.
     */
    twostate predicate Answered(kind: TunnelKind, field: TunnelField, index: int32, new r: Option<string>)
      reads this, api
    {
      var reply := api.tunnel(kind, field, index);
      if index < api.CountOf(kind) then
        api.calls == old(api.calls) + [Count(kind), Lookup(kind, field, index)] &&
        retStr == reply.written.GetOr(old(retStr)) &&
        r == ToCString(reply.code, retStr)
      else
        api.calls == old(api.calls) + [Count(kind)] && retStr == old(retStr) && r == None
    }

    /**
     * The index is checked only against the count: a negative index is not rejected and
     * reaches the engine, even when there is no tunnel of that kind at all.
     */
    twostate lemma NegativeIndexReachesEngine(kind: TunnelKind, field: TunnelField, index: int32, new r: Option<string>)
      requires index < 0 <= api.CountOf(kind)
      requires Answered(kind, field, index, r)
      ensures |api.calls| > 0 && api.calls[|api.calls| - 1] == Lookup(kind, field, index)
    {
    }

    /** The body shared by the four indexed queries (capi.cpp:115-177). */
    method TunnelsField(kind: TunnelKind, field: TunnelField, index: int32) returns (r: Option<string>)
      requires Valid()
      modifies this, api
      ensures Valid()
      ensures Answered(kind, field, index, r)
      ensures r.Some? ==> r.value == retStr
    {
      var count := api.GetTunnelsCount(kind);
      if index < count {
        var code;
        code, retStr := api.GetTunnelsField(retStr, kind, field, index);
        r := ToCString(code, retStr);
      } else {
        r := None;
      }
    }

    /** C_GetClientTunnelsName */
    method GetClientTunnelsName(index: int32) returns (r: Option<string>)
      requires Valid()
      modifies this, api
      ensures Valid()
      ensures Answered(Client, Name, index, r)
    {
      r := TunnelsField(Client, Name, index);
    }

    /** C_GetClientTunnelsIdent */
    method GetClientTunnelsIdent(index: int32) returns (r: Option<string>)
      requires Valid()
      modifies this, api
      ensures Valid()
      ensures Answered(Client, Ident, index, r)
    {
      r := TunnelsField(Client, Ident, index);
    }

    /** C_GetServerTunnelsName */
    method GetServerTunnelsName(index: int32) returns (r: Option<string>)
      requires Valid()
      modifies this, api
      ensures Valid()
      ensures Answered(Server, Name, index, r)
    {
      r := TunnelsField(Server, Name, index);
    }

    /** C_GetServerTunnelsIdent */
    method GetServerTunnelsIdent(index: int32) returns (r: Option<string>)
      requires Valid()
      modifies this, api
      ensures Valid()
      ensures Answered(Server, Ident, index, r)
    {
      r := TunnelsField(Server, Ident, index);
    }

    /**
     * A caller that keeps two results of indexed queries of the same kind and field. Both
     * pointers lead into RET_STR, so once the second query is done the first result no
     * longer reads what it read when it was returned: `first` is what it reads now.
     */
    method QueryTwice(kind: TunnelKind, field: TunnelField, i: int32, j: int32)
      returns (r1: Option<string>, r2: Option<string>, first: Option<string>)
      requires Valid()
      modifies this, api
      ensures Valid()
      ensures first.Some? <==> r1.Some?
      ensures first.Some? ==> first.value == retStr
      ensures r1.Some? && r2.Some? ==> first == r2
      ensures var w := api.tunnel(kind, field, j).written;
        r1.Some? && j < api.CountOf(kind) && w.Some? ==> first == w
    {
      r1 := TunnelsField(kind, field, i);
      r2 := TunnelsField(kind, field, j);
      first := if r1.Some? then Some(retStr) else None;
    }

    /**
     * C_LoadPrivateKeysFromFile: no precheck; the loader may rewrite RET_STR and the result
     * is RET_STR exactly when it answered 1.
     */
    method LoadPrivateKeysFromFile(filename: string, sigType: uint16, cryptoType: uint16) returns (r: Option<string>)
      requires Valid()
      modifies this, api
      ensures Valid()
      ensures var reply := api.keys(filename, sigType, cryptoType);
        api.calls == old(api.calls) + [LoadKeys(filename, sigType, cryptoType)] &&
        retStr == reply.written.GetOr(old(retStr)) &&
        r == ToCString(reply.code, retStr)
    {
      var code;
      code, retStr := api.LoadPrivateKeysFromFile(retStr, filename, sigType, cryptoType);
      r := ToCString(code, retStr);
    }
  }
}
