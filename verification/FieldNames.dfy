/** That the names an object is written with are told apart. */
module FieldNames {

  predicate Differs(key: string, keys: seq<string>) {
    keys == [] || (key != keys[0] && Differs(key, keys[1..]))
  }

  predicate Unlike(keys: seq<string>) {
    keys == [] || (Differs(keys[0], keys[1..]) && Unlike(keys[1..]))
  }

  lemma {:induction false} DiffersFromEach(key: string, keys: seq<string>)
    requires Differs(key, keys)
    ensures key !in keys
  {
    if keys != [] {
      DiffersFromEach(key, keys[1..]);
    }
  }

  lemma StateKeysDiffer()
    ensures Unlike(["version", "domain", "subnet", "listen_port", "api_port", "tls", "cloudflare", "server",
        "peers", "codes"])
  {
  }

  lemma LegacyKeysDiffer()
    ensures Unlike(["version", "domain", "subnet", "listen_port", "api_port", "tls_cert_path", "tls_key_path", "server",
                    "peers", "codes"])
  {
  }

  lemma AcmeKeysDiffer()
    ensures Unlike(["directory", "contact", "account_key_path", "account_url", "challenge", "issued_at", "renew_after"])
  {
  }
}
