/** `src/io/client/index.client.ts`: how a replica connected to a hub reads the
    hub's address out of the URL it connected to, and whether a message for
    one replica goes straight to the hub or is relayed by it. The client's
    socket and connection state are not modelled; the URL is a parameter. */
module Client {
  import opened JsSemantics

  /** `getIP()`: the text after the first `//` (or, with no `//`, after the
      first character) up to the next `/` or the end of the URL. */
  function GetIP(address: string): (r: string)
    ensures '/' !in r
  {
    var start := IndexOf(address, "//", 0) + 2;
    var slash := IndexOf(address, "/", start);
    var end := if slash == -1 then |address| else slash;
    var a := ClampIndex(start, |address|);
    assert a <= end;
    assert '/' !in address[a..end] by {
      forall i | a <= i < end ensures address[i] != '/' {
        assert !OccursAt(address, "/", i);
        assert address[i..i + 1] == [address[i]];
      }
    }
    Substring(address, start, end)
  }

  /** A URL `scheme//host` followed by nothing or by a path: the hub address
      is `host`, so `http://1.2.3.4:8080/x` gives `1.2.3.4:8080`. */
  lemma GetIPOfUrl(scheme: string, host: string, path: string)
    requires '/' !in scheme && '/' !in host
    requires path == [] || path[0] == '/'
    ensures GetIP(scheme + "//" + host + path) == host
  {
    var s := scheme + "//" + host + path;
    var k := |scheme|;
    assert OccursAt(s, "//", k) by {
      assert s[k..k + 2] == "//";
    }
    forall i | 0 <= i < k ensures !OccursAt(s, "//", i) {
      assert s[i] == scheme[i];
      assert s[i..i + 2][0] == s[i];
    }
    assert IndexOf(s, "//", 0) == k;
    var start := k + 2;
    forall i | start <= i < start + |host| ensures !OccursAt(s, "/", i) {
      assert s[i] == host[i - start];
      assert s[i..i + 1][0] == s[i];
    }
    if path != [] {
      assert OccursAt(s, "/", start + |host|) by {
        assert s[start + |host|..start + |host| + 1] == [path[0]];
      }
      assert IndexOf(s, "/", start) == start + |host|;
    } else {
      assert IndexOf(s, "/", start) == -1;
    }
    assert s[start..start + |host|] == host;
  }

  /** Before the client has connected, its address is empty and the hub
      address reads as empty. */
  lemma GetIPOfEmpty()
    ensures GetIP("") == ""
  {
  }

  /** Without any `//`, the first character is dropped: `indexOf` answers -1,
      so reading starts at index 1. */
  lemma {:induction false} GetIPWithoutScheme(address: string)
    requires address != []
    requires forall i :: 0 <= i < |address| - 1 ==> !(address[i] == '/' && address[i + 1] == '/')
    requires '/' !in address[1..]
    ensures GetIP(address) == address[1..]
  {
    forall i | 0 <= i ensures !OccursAt(address, "//", i) {
      if i + 2 <= |address| {
        assert address[i..i + 2][0] == address[i] && address[i..i + 2][1] == address[i + 1];
      }
    }
    assert IndexOf(address, "//", 0) == -1;
    forall i | 1 <= i ensures !OccursAt(address, "/", i) {
      if i < |address| {
        assert address[i..i + 1][0] == address[i];
        assert address[1..][i - 1] == address[i];
      }
    }
    assert IndexOf(address, "/", 1) == -1;
  }

  /** What `sendTo` hands to the hub socket. */
  datatype SendAction<D> =
    | DirectEmit(event: string, data: D)                  // `socket.emit(event, data)`
    | RelaySendTo(replica: string, event: string, data: D)  // `socket.emit("relay-send-to", {replica, event, data})`

  /** `sendTo(replica, event, data)`: emitted directly exactly when the target
      is the hub itself, and relayed through the hub otherwise. */
  function SendTo<D>(hubUrl: string, replica: string, event: string, data: D): (r: SendAction<D>)
    ensures r.DirectEmit? <==> replica == GetIP(hubUrl)
    ensures r.event == event && r.data == data
    ensures r.RelaySendTo? ==> r.replica == replica
  {
    if replica == GetIP(hubUrl) then DirectEmit(event, data) else RelaySendTo(replica, event, data)
  }
}
