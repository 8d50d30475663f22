/** Hostnames worked through the name derivation of `extractNameFromUrl`. */
module NameExamples {
  import opened JsStrings
  import opened WebsiteApi

  /** `www.example.com` is named `Example`. */
  lemma NameOfWwwExampleCom()
    ensures NameFromHostname("www.example.com") == "Example"
  {
    assert CapitalizeWord("example") == "Example";
    NameOfWwwHost("www.example.com", "example", "com");
  }

  /** Only the first `www.` goes: `www.www.<domain>.<tld>` is named
      `Www.<domain>`, so `www.www.example.com` is `Www.example`. */
  lemma NameOfDoubleWww(host: string, domain: string, tld: string)
    requires host == "www.www." + domain + "." + tld
    requires '.' !in tld && '-' !in domain
    ensures NameFromHostname(host) == "Www." + domain
  {
    var inner := "www." + domain;
    assert host == "www." + inner + "." + tld;
    assert '-' !in inner;
    assert CapitalizeWord(inner) == "Www." + domain by {
      assert inner[1..] == "ww." + domain;
    }
    NameOfWwwHost(host, inner, tld);
  }

  /** A single-label host, `localhost` for one, is named with the empty string. */
  lemma NameOfSingleLabel(host: string)
    requires '.' !in host
    ensures NameFromHostname(host) == ""
  {
    forall j
      ensures !OccursAt(host, "www.", j)
    {
      if 0 <= j && j + 4 <= |host| {
        assert host[j..j + 4][3] == host[j + 3];
      }
    }
    assert StripWww(host) == host;
    assert StripLastLabel(host) == [];
    assert Split([], '-') == [[]];
    assert CapitalizeEach([[]]) == [[]];
  }
}
