// src/oidc/client.rs: the client registry and client authentication.
module Client {
  import opened Wrappers
  import opened Bits
  import opened Utf8

  datatype AuthResult = Allow | Deny

  // No secret means a public client.
  datatype ClientConfig = ClientConfig(
    clientId: string,
    clientSecret: Option<string>,
    redirectUris: seq<string>,
    groups: seq<string>)

  datatype RegistryError = DuplicateClientId(clientId: string)

  ghost predicate DistinctIds(clients: seq<ClientConfig>) {
    forall i, j | 0 <= i < j < |clients| :: clients[i].clientId != clients[j].clientId
  }

  // The client at i is the first to repeat an id.
  ghost predicate FirstRepeat(clients: seq<ClientConfig>, i: nat, id: string) {
    && i < |clients| && clients[i].clientId == id
    && DistinctIds(clients[..i])
    && exists j :: 0 <= j < i && clients[j].clientId == id
  }

  datatype ClientRegistry = ClientRegistry(clients: seq<ClientConfig>) {

    static method New(clients: seq<ClientConfig>) returns (r: Result<ClientRegistry, RegistryError>)
      ensures r.Ok? <==> DistinctIds(clients)
      ensures r.Ok? ==> r.value.clients == clients
      ensures r.Err? ==> exists i: nat :: FirstRepeat(clients, i, r.error.clientId)
    {
      var seen: set<string> := {};
      for i := 0 to |clients|
        invariant DistinctIds(clients[..i])
        invariant forall id :: id in seen <==> exists j :: 0 <= j < i && clients[j].clientId == id
      {
        var id := clients[i].clientId;
        if id in seen {
          assert FirstRepeat(clients, i, id);
          return Err(DuplicateClientId(id));
        }
        seen := seen + {id};
        assert clients[..i + 1] == clients[..i] + [clients[i]];
      }
      assert clients[..|clients|] == clients;
      return Ok(ClientRegistry(clients));
    }

    function FindById(clientId: string): Option<ClientConfig> {
      Find(clients, clientId)
    }

    predicate ValidateRedirectUri(clientId: string, redirectUri: string) {
      match FindById(clientId)
      case Some(client) => redirectUri in client.redirectUris
      case None => false
    }

    function ClientSecretResult(clientId: string, presented: Option<string>): AuthResult {
      match FindById(clientId)
      case None => Deny
      case Some(client) =>
        match client.clientSecret
        case None => Allow
        case Some(expected) => if presented == Some(expected) then Allow else Deny
    }

    method ValidateClientSecret(clientId: string, presented: Option<string>) returns (r: AuthResult)
      ensures r == ClientSecretResult(clientId, presented)
    {
      match FindById(clientId) {
        case None => return Deny;
        case Some(client) =>
          match client.clientSecret {
            case None => return Allow;
            case Some(expected) =>
              match presented {
                case None => return Deny;
                case Some(given) =>
                  var same := ConstantTimeEq(Encode(expected), Encode(given));
                  if same { EncodeInjective(expected, given); }
                  return if same then Allow else Deny;
              }
          }
      }
    }

    // A client is let in exactly when it is registered and is public or
    // presents the secret stored for it.
    lemma SecretAllows(clientId: string, presented: Option<string>)
      requires DistinctIds(clients)
      ensures ClientSecretResult(clientId, presented) == Allow <==>
                exists c :: c in clients && c.clientId == clientId
                  && (c.clientSecret == None || c.clientSecret == presented)
    {
      FindIsMember(clients, clientId);
    }

    // A redirect URI is good exactly when it is any of those registered for the
    // client.
    lemma RedirectAllows(clientId: string, uri: string)
      requires DistinctIds(clients)
      ensures ValidateRedirectUri(clientId, uri) <==>
                exists c, k :: c in clients && c.clientId == clientId
                  && 0 <= k < |c.redirectUris| && c.redirectUris[k] == uri
    {
      FindIsMember(clients, clientId);
    }

    // The order in which clients are listed answers no query differently.
    lemma OrderIrrelevant(other: ClientRegistry, clientId: string)
      requires DistinctIds(clients) && multiset(clients) == multiset(other.clients)
      ensures DistinctIds(other.clients)
      ensures FindById(clientId) == other.FindById(clientId)
      ensures forall uri :: ValidateRedirectUri(clientId, uri) == other.ValidateRedirectUri(clientId, uri)
      ensures forall secret :: ClientSecretResult(clientId, secret) == other.ClientSecretResult(clientId, secret)
    {
      SameMembers(clients, other.clients);
      FindIsMember(clients, clientId);
      FindIsMember(other.clients, clientId);
    }
  }

  function Find(clients: seq<ClientConfig>, clientId: string): Option<ClientConfig> {
    if clients == [] then None
    else if clients[0].clientId == clientId then Some(clients[0])
    else Find(clients[1..], clientId)
  }

  // With distinct ids the registry is a map from ids to clients.
  lemma {:induction false} FindIsMember(clients: seq<ClientConfig>, clientId: string)
    requires DistinctIds(clients)
    ensures forall c :: Find(clients, clientId) == Some(c) <==> c in clients && c.clientId == clientId
  {
    if clients != [] {
      var rest := clients[1..];
      assert forall i | 0 <= i < |rest| :: rest[i] == clients[i + 1];
      FindIsMember(rest, clientId);
      forall c | c in clients
        ensures c == clients[0] || (c in rest && c.clientId != clients[0].clientId)
      {
        var i :| 0 <= i < |clients| && clients[i] == c;
      }
    }
  }

  lemma {:induction false} TwiceInList(clients: seq<ClientConfig>, c: ClientConfig)
    ensures multiset(clients)[c] >= 2 <==>
              exists i, j :: 0 <= i < j < |clients| && clients[i] == c && clients[j] == c
  {
    if clients != [] {
      var rest := clients[1..];
      assert clients == [clients[0]] + rest;
      assert forall i | 0 <= i < |rest| :: rest[i] == clients[i + 1];
      TwiceInList(rest, c);
      if multiset(clients)[c] >= 2 {
        if clients[0] == c {
          assert c in rest;
          var j :| 0 <= j < |rest| && rest[j] == c;
          assert clients[j + 1] == c;
        } else {
          var i, j :| 0 <= i < j < |rest| && rest[i] == c && rest[j] == c;
          assert clients[i + 1] == c && clients[j + 1] == c;
        }
      }
      if i, j :| 0 <= i < j < |clients| && clients[i] == c && clients[j] == c {
        assert rest[j - 1] == c;
        if i > 0 { assert rest[i - 1] == c; }
      }
    }
  }

  lemma SameMembers(clients: seq<ClientConfig>, other: seq<ClientConfig>)
    requires DistinctIds(clients) && multiset(clients) == multiset(other)
    ensures DistinctIds(other)
    ensures forall c :: c in clients <==> c in other
  {
    assert forall c :: c in clients <==> c in multiset(clients);
    assert forall c :: c in other <==> c in multiset(other);
    forall i, j | 0 <= i < j < |other|
      ensures other[i].clientId != other[j].clientId
    {
      if other[i] == other[j] {
        TwiceInList(other, other[i]);
        TwiceInList(clients, other[i]);
      }
      assert other[i] in clients && other[j] in clients;
    }
  }

  // The secret comparison. Equal-length inputs are compared in full: diff
  // gathers the bits in which any pair of bytes differs.
  method ConstantTimeEq(a: seq<byte>, b: seq<byte>) returns (equal: bool)
    ensures equal <==> a == b
  {
    if |a| != |b| {
      return false;
    }
    var diff: bv8 := 0;
    for i := 0 to |a|
      invariant diff == 0 <==> a[..i] == b[..i]
    {
      var x, y := a[i] as bv8, b[i] as bv8;
      XorZero(a[i], b[i]);
      OrZero(diff, x ^ y);
      diff := diff | (x ^ y);
      assert a[..i + 1] == a[..i] + [a[i]] && b[..i + 1] == b[..i] + [b[i]];
    }
    assert a[..|a|] == a && b[..|b|] == b;
    return diff == 0;
  }
}
