/**
 * The request handler's two ordered lists of handlers (primary and
 * secondary), the operations that maintain them, and the dispatch that asks
 * the handlers in turn for a response.
 */
module HandlerLists {
  import opened RequestUrls

  /** Every element occurs at most once. */
  ghost predicate Distinct<H>(s: seq<H>) {
    forall x | x in s :: multiset(s)[x] <= 1
  }

  /** The position of the first occurrence of h. */
  function IndexOf<H(==)>(s: seq<H>, h: H): (i: int)
    requires h in s
    ensures 0 <= i < |s| && s[i] == h
    ensures forall j :: 0 <= j < i ==> s[j] != h
  {
    if s[0] == h then 0 else 1 + IndexOf(s[1..], h)
  }

  /**
   * The list without the first occurrence of h (List.Remove): one copy of h
   * fewer, the others in their places before it and shifted down by one after it.
   */
  function RemoveFirst<H(==)>(s: seq<H>, h: H): (r: seq<H>)
    ensures multiset(r) == multiset(s) - multiset{h}
    ensures h !in s ==> r == s
    ensures h in s ==> |r| == |s| - 1
    ensures h in s ==> forall j :: 0 <= j < IndexOf(s, h) ==> r[j] == s[j]
    ensures h in s ==> forall j :: IndexOf(s, h) <= j < |r| ==> r[j] == s[j + 1]
  {
    if h in s then
      var i := IndexOf(s, h);
      assert s == s[..i] + [h] + s[i + 1..];
      s[..i] + s[i + 1..]
    else s
  }

  /** The list with h placed at index (List.Insert). */
  function InsertAt<H>(s: seq<H>, index: int, h: H): (r: seq<H>)
    requires 0 <= index <= |s|
    ensures |r| == |s| + 1 && r[index] == h
    ensures multiset(r) == multiset(s) + multiset{h}
  {
    assert s == s[..index] + s[index..];
    s[..index] + [h] + s[index..]
  }

  /** The handlers whose type is not t, in their original order. */
  function WithoutType<H, K(==)>(s: seq<H>, typeOf: H -> K, t: K): (r: seq<H>)
    ensures |r| <= |s|
  {
    if s == [] then []
    else (if typeOf(s[0]) == t then [] else [s[0]]) + WithoutType(s[1..], typeOf, t)
  }

  /** Exactly the handlers of type t go: every other handler keeps its number of copies. */
  lemma {:induction false} WithoutTypeCounts<H, K>(s: seq<H>, typeOf: H -> K, t: K)
    ensures multiset(WithoutType(s, typeOf, t)) <= multiset(s)
    ensures forall x | x in s :: multiset(WithoutType(s, typeOf, t))[x] == if typeOf(x) == t then 0 else multiset(s)[x]
    ensures forall x | x in WithoutType(s, typeOf, t) :: typeOf(x) != t
    decreases |s|
  {
    if s != [] {
      assert s == [s[0]] + s[1..];
      WithoutTypeCounts(s[1..], typeOf, t);
    }
  }

  /** Filtering distributes over concatenation, so the order of the kept handlers is the original one. */
  lemma {:induction false} WithoutTypeAppend<H, K>(a: seq<H>, b: seq<H>, typeOf: H -> K, t: K)
    ensures WithoutType(a + b, typeOf, t) == WithoutType(a, typeOf, t) + WithoutType(b, typeOf, t)
    decreases |a|
  {
    if a == [] {
      assert a + b == b;
    } else {
      assert (a + b)[1..] == a[1..] + b;
      WithoutTypeAppend(a[1..], b, typeOf, t);
    }
  }

  /** The backward loop that removes, index by index, every handler of type t. */
  method RemoveAllOfType<H, K(==)>(s: seq<H>, typeOf: H -> K, t: K) returns (r: seq<H>)
    ensures r == WithoutType(s, typeOf, t)
  {
    r := s;
    var i := |s| - 1;
    while i >= 0
      invariant -1 <= i < |s|
      invariant r == s[..i + 1] + WithoutType(s[i + 1..], typeOf, t)
    {
      assert s[i..] == [s[i]] + s[i + 1..];
      assert r[..i] == s[..i] && r[i] == s[i];
      if typeOf(r[i]) == t {
        r := r[..i] + r[i + 1..];
      }
      assert r == s[..i] + WithoutType(s[i..], typeOf, t);
      i := i - 1;
    }
    assert s[0..] == s;
  }

  /**
   * The first response any handler gives, asking them in list order; None
   * when every handler declines.
   */
  function FirstResponse<H, R(==)>(handlers: seq<H>, respond: (H, string) -> Option<R>, url: string): (r: Option<R>)
    ensures r.None? <==> forall i :: 0 <= i < |handlers| ==> respond(handlers[i], url).None?
    ensures r.Some? ==> exists i :: 0 <= i < |handlers| && respond(handlers[i], url) == r &&
                          forall j :: 0 <= j < i ==> respond(handlers[j], url).None?
  {
    if handlers == [] then None
    else if respond(handlers[0], url).Some? then respond(handlers[0], url)
    else
      var r := FirstResponse(handlers[1..], respond, url);
      assert forall i :: 1 <= i < |handlers| ==> handlers[i] == handlers[1..][i - 1];
      if r.Some? then
        var i :| 0 <= i < |handlers[1..]| && respond(handlers[1..][i], url) == r &&
          forall j :: 0 <= j < i ==> respond(handlers[1..][j], url).None?;
        assert respond(handlers[i + 1], url) == r;
        r
      else r
  }

  class RequestHandler<H(==), K(==)> {
    var RequestHandlers: seq<H>
    var SecondaryRequestHandlers: seq<H>
    /** The runtime type of a handler, what GetType() reports. */
    const TypeOf: H -> K

    constructor (TypeOf: H -> K)
      ensures RequestHandlers == [] && SecondaryRequestHandlers == []
      ensures this.TypeOf == TypeOf
    {
      RequestHandlers := [];
      SecondaryRequestHandlers := [];
      this.TypeOf := TypeOf;
    }

    /**
     * Cleans the request URL, then asks the primary handlers and after them
     * the secondary ones; the first response wins. `respond` stands for the
     * handlers' own GetResponse.
     */
    method GetResponse<R(==)>(url: string, respond: (H, string) -> Option<R>) returns (response: Option<R>, requestUrl: string)
      ensures requestUrl == Stripped(url)
      ensures response == FirstResponse(RequestHandlers + SecondaryRequestHandlers, respond, requestUrl)
    {
      requestUrl := StripRequestUrl(url);
      var all := RequestHandlers + SecondaryRequestHandlers;
      var i := 0;
      while i < |all|
        invariant 0 <= i <= |all|
        invariant FirstResponse(all, respond, requestUrl) == FirstResponse(all[i..], respond, requestUrl)
      {
        assert all[i..][1..] == all[i + 1..];
        var r := respond(all[i], requestUrl);
        if r.Some? {
          return r, requestUrl;
        }
        i := i + 1;
      }
      return None, requestUrl;
    }

    /** Appends the handler unless an equal one is already listed. */
    method AddRequestHandler(handler: H)
      modifies this
      ensures RequestHandlers == if handler in old(RequestHandlers) then old(RequestHandlers) else old(RequestHandlers) + [handler]
      ensures SecondaryRequestHandlers == old(SecondaryRequestHandlers)
      ensures handler in RequestHandlers
      ensures old(Distinct(RequestHandlers)) ==> Distinct(RequestHandlers)
    {
      if handler !in RequestHandlers {
        RequestHandlers := RequestHandlers + [handler];
      }
    }

    /** Places the handler at index, without looking for an existing copy. */
    method InsertRequestHandler(handler: H, index: int)
      requires 0 <= index <= |RequestHandlers|
      modifies this
      ensures RequestHandlers == InsertAt(old(RequestHandlers), index, handler)
      ensures SecondaryRequestHandlers == old(SecondaryRequestHandlers)
    {
      RequestHandlers := InsertAt(RequestHandlers, index, handler);
    }

    /** Removes the first handler equal to the given one, if any. */
    method RemoveRequestHandler(handler: H)
      modifies this
      ensures RequestHandlers == RemoveFirst(old(RequestHandlers), handler)
      ensures SecondaryRequestHandlers == old(SecondaryRequestHandlers)
      ensures old(Distinct(RequestHandlers)) ==> Distinct(RequestHandlers) && handler !in RequestHandlers
    {
      RequestHandlers := RemoveFirst(RequestHandlers, handler);
    }

    /** Removes every primary handler of the given type, keeping the order of the rest. */
    method RemoveRequestHandlers(handlertype: K)
      modifies this
      ensures RequestHandlers == WithoutType(old(RequestHandlers), TypeOf, handlertype)
      ensures SecondaryRequestHandlers == old(SecondaryRequestHandlers)
      ensures old(Distinct(RequestHandlers)) ==> Distinct(RequestHandlers)
    {
      WithoutTypeCounts(RequestHandlers, TypeOf, handlertype);
      RequestHandlers := RemoveAllOfType(RequestHandlers, TypeOf, handlertype);
    }

    /**
     * Moves the handler to index: an existing copy is taken out first, so the
     * handler is listed once, at index, whenever the list had no duplicates.
     * The index is checked against the list after that removal.
     */
    method InsertSecondaryRequestHandler(handler: H, index: int)
      requires 0 <= index <= |RemoveFirst(SecondaryRequestHandlers, handler)|
      modifies this
      ensures SecondaryRequestHandlers == InsertAt(RemoveFirst(old(SecondaryRequestHandlers), handler), index, handler)
      ensures RequestHandlers == old(RequestHandlers)
      ensures SecondaryRequestHandlers[index] == handler
      ensures old(Distinct(SecondaryRequestHandlers)) ==>
        Distinct(SecondaryRequestHandlers) && multiset(SecondaryRequestHandlers)[handler] == 1
    {
      if handler in SecondaryRequestHandlers {
        SecondaryRequestHandlers := RemoveFirst(SecondaryRequestHandlers, handler);
      }
      SecondaryRequestHandlers := InsertAt(SecondaryRequestHandlers, index, handler);
    }

    /** Removes the first secondary handler equal to the given one, if any. */
    method RemoveSecondaryRequestHandler(handler: H)
      modifies this
      ensures SecondaryRequestHandlers == RemoveFirst(old(SecondaryRequestHandlers), handler)
      ensures RequestHandlers == old(RequestHandlers)
      ensures old(Distinct(SecondaryRequestHandlers)) ==> Distinct(SecondaryRequestHandlers) && handler !in SecondaryRequestHandlers
    {
      SecondaryRequestHandlers := RemoveFirst(SecondaryRequestHandlers, handler);
    }

    /** Removes every secondary handler of the given type, keeping the order of the rest. */
    method RemoveSecondaryRequestHandlers(handlertype: K)
      modifies this
      ensures SecondaryRequestHandlers == WithoutType(old(SecondaryRequestHandlers), TypeOf, handlertype)
      ensures RequestHandlers == old(RequestHandlers)
      ensures old(Distinct(SecondaryRequestHandlers)) ==> Distinct(SecondaryRequestHandlers)
    {
      WithoutTypeCounts(SecondaryRequestHandlers, TypeOf, handlertype);
      SecondaryRequestHandlers := RemoveAllOfType(SecondaryRequestHandlers, TypeOf, handlertype);
    }
  }
}
