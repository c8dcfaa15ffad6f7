/** Connection strings (`getarg_constr` of src/server/action-json.c): an API key,
    optionally followed by the currency sign and a password. */
module Constr {
  import opened Base
  import opened Uuid

  datatype Constr = Constr(apiKey: Uuid, password: Option<string>)

  /** The currency sign, two bytes in UTF-8. */
  const DELIMITER: string := [0xC2 as char, 0xA4 as char]

  /** `getarg_constr` on a string argument: None is the "invalid API key" failure. */
  function ParseConstr(s: string): Option<Constr> {
    if |s| < REPR_LENGTH || Decode(s[..REPR_LENGTH]).None? then None
    else
      var key := Decode(s[..REPR_LENGTH]).value;
      var rest := s[REPR_LENGTH..];
      Some(Constr(key, if DELIMITER <= rest then Some(CStr(rest[|DELIMITER|..])) else None))
  }

  /** The connection string of a key and a password, as `action_explain` prints it. */
  function PrintConstr(c: Constr): string {
    Encode(c.apiKey) + match c.password { case None => "" case Some(p) => DELIMITER + p }
  }

  /** Printing then extracting gives the same pair back exactly when the password
      is absent or free of NUL; in particular an absent password and an empty one
      stay distinct. */
  lemma PrintParse(c: Constr)
    ensures ParseConstr(PrintConstr(c)) == Some(c) <==> (c.password.Some? ==> '\0' !in c.password.value)
  {
    var s, key := PrintConstr(c), Encode(c.apiKey);
    ParseRepr(c.apiKey);
    assert s[..REPR_LENGTH] == key;
    if c.password.Some? {
      var p := c.password.value;
      assert s[REPR_LENGTH..] == DELIMITER + p;
      assert (DELIMITER + p)[|DELIMITER|..] == p;
      CStrWhole(p);
    } else {
      assert s[REPR_LENGTH..] == "";
    }
  }

  /** Distinct NUL-free pairs never share a connection string. */
  lemma PrintInjective(c: Constr, d: Constr)
    requires c.password.Some? ==> '\0' !in c.password.value
    requires d.password.Some? ==> '\0' !in d.password.value
    requires PrintConstr(c) == PrintConstr(d)
    ensures c == d
  {
    PrintParse(c);
    PrintParse(d);
  }

  /** Every accepted string, trailing junk included, is equivalent to the canonical
      string of what was read from it. */
  lemma ParsePrintParse(s: string)
    requires ParseConstr(s).Some?
    ensures ParseConstr(PrintConstr(ParseConstr(s).value)) == ParseConstr(s)
  {
    PrintParse(ParseConstr(s).value);
  }

  /** A string is accepted exactly when it starts with a UUID; what follows never
      matters unless it starts with the delimiter. */
  lemma AcceptedIff(s: string, junk: string)
    ensures ParseConstr(s).Some? <==> |s| >= REPR_LENGTH && Grammar(s[..REPR_LENGTH])
    ensures ParseConstr(s).Some? && |s| == REPR_LENGTH ==>
              (ParseConstr(s + junk) == ParseConstr(s) <==> !(DELIMITER <= junk))
  {
    if |s| == REPR_LENGTH {
      assert (s + junk)[..REPR_LENGTH] == s == s[..REPR_LENGTH];
      assert (s + junk)[REPR_LENGTH..] == junk && s[REPR_LENGTH..] == "";
    }
  }

  /** What is read from an accepted string, byte by byte: the UUID of its first 36, and
      a password exactly when the bytes C2 A4 follow, namely what comes after them up to
      the end or the first NUL. */
  lemma ParsedParts(s: string)
    requires ParseConstr(s).Some?
    ensures var c := ParseConstr(s).value;
            && Some(c.apiKey) == Decode(s[..36])
            && (c.password.Some? <==> |s| >= 38 && s[36] as int == 0xC2 && s[37] as int == 0xA4)
            && (c.password.Some? ==>
                  var p, rest := c.password.value, s[38..];
                  p <= rest && '\0' !in p && (p == rest || rest[|p|] == '\0'))
  {
    var rest := s[REPR_LENGTH..];
    if |s| >= 38 {
      assert rest[0] == s[36] && rest[1] == s[37];
      assert rest[|DELIMITER|..] == s[38..];
    }
  }
}
