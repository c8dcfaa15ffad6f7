/** The recursive JSON comparison the tests of the repository rest on
    (`json_object_eq_fmt` of test/server/tests.c). */
module JsonEq {
  import opened Base
  import opened Json

  // ---- What a document means ----

  /** A document up to the order of object members, with integers as the 32-bit
      getter returns them and strings as C sees them. */
  datatype Value =
    | VNull
    | VBool(b: bool)
    | VInt(n: int)
    | VDouble(d: real)
    | VString(s: string)
    | VArray(items: seq<Value>)
    | VObject(fields: map<string, Value>)

  function Denote(j: Json): Value
    decreases j, 1
  {
    match j
    case JNull => VNull
    case JBool(b) => VBool(b)
    case JInt(n) => VInt(Clamp32(n))
    case JDouble(d) => VDouble(d)
    case JString(s) => VString(CStr(s))
    case JArray(items) => VArray(DenoteItems(items))
    case JObject(ms) => VObject(DenoteMembers(ms))
  }

  function DenoteItems(items: seq<Json>): (r: seq<Value>)
    ensures |r| == |items|
    ensures forall i :: 0 <= i < |items| ==> r[i] == Denote(items[i])
    decreases items, 0
  {
    if items == [] then [] else [Denote(items[0])] + DenoteItems(items[1..])
  }

  function DenoteMembers(ms: seq<Field>): map<string, Value>
    decreases ms, 0
  {
    if ms == [] then map[]
    else
      assert ms[0] in ms;
      DenoteMembers(ms[1..])[ms[0].key := Denote(ms[0].value)]
  }

  lemma {:induction false} DenotedKeys(ms: seq<Field>, key: string)
    ensures key in DenoteMembers(ms) <==> exists i :: 0 <= i < |ms| && ms[i].key == key
  {
    if ms != [] {
      DenotedKeys(ms[1..], key);
      assert forall i :: 0 < i < |ms| ==> ms[i] == ms[1..][i - 1];
    }
  }

  /** Distinct keys give one entry per member: the value under its key. */
  lemma {:induction false} MembersDenote(ms: seq<Field>)
    requires UniqueKeys(ms)
    ensures |DenoteMembers(ms)| == |ms|
    ensures forall i :: 0 <= i < |ms| ==>
              ms[i].key in DenoteMembers(ms) && DenoteMembers(ms)[ms[i].key] == Denote(ms[i].value)
  {
    if ms != [] {
      MembersDenote(ms[1..]);
      DenotedKeys(ms[1..], ms[0].key);
      assert forall i :: 0 < i < |ms| ==> ms[i] == ms[1..][i - 1];
    }
  }

  // ---- The comparison ----

  /** A format pattern: one-member objects keyed `$fmt_quoted` or `$fmt` stand for
      a scanf format instead of a value. */
  datatype Pattern = Quoted(value: Json) | Plain(value: Json)

  /** `json_object_get_fmt`: a null under `$fmt` yields no format string. */
  function GetFmt(j: Json): Option<Pattern> {
    if j.JObject? && |j.fields| == 1 then
      match GetEx(j, "$fmt_quoted")
      case Some(v) => Some(Quoted(v))
      case None =>
        match GetEx(j, "$fmt")
        case Some(v) => if v.JNull? then None else Some(Plain(v))
        case None => None
    else None
  }

  /** No part of the document is a format pattern. */
  ghost predicate FormatFree(j: Json) {
    && GetFmt(j).None?
    && match j
       case JArray(items) => forall i :: 0 <= i < |items| ==> FormatFree(items[i])
       case JObject(ms) => forall i :: 0 <= i < |ms| ==> FormatFree(ms[i].value)
       case _ => true
  }

  /** The comparison; `scan` stands for the call of sscanf on a pattern. */
  ghost predicate EqFmt(actual: Json, expected: Json, scan: (Json, Pattern) -> bool)
    decreases actual
  {
    if GetFmt(expected).Some? then scan(actual, GetFmt(expected).value)
    else
      match (actual, expected)
      case (JNull, JNull) => true
      case (JBool(b), JBool(c)) => b == c
      case (JDouble(x), JDouble(y)) => x == y
      case (JInt(n), JInt(k)) => Clamp32(n) == Clamp32(k)
      case (JString(s), JString(t)) => CStr(s) == CStr(t)
      case (JArray(xs), JArray(ys)) =>
        |xs| == |ys| && forall i :: 0 <= i < |xs| ==> EqFmt(xs[i], ys[i], scan)
      case (JObject(ms), JObject(_)) =>
        && |ms| == |expected.fields|
        && forall i :: 0 <= i < |ms| ==>
             GetEx(expected, ms[i].key).Some? && EqFmt(ms[i].value, GetEx(expected, ms[i].key).value, scan)
      case _ => false
  }

  /** `json_object_eq_fmt`. */
  method JsonObjectEqFmt(actual: Json, expected: Json, scan: (Json, Pattern) -> bool) returns (equal: bool)
    ensures equal == EqFmt(actual, expected, scan)
    decreases actual
  {
    var fmt := GetFmt(expected);
    if fmt.Some? {
      return scan(actual, fmt.value);
    }
    match (actual, expected)
    case (JNull, JNull) => return true;
    case (JBool(b), JBool(c)) => return b == c;
    case (JDouble(x), JDouble(y)) => return x == y;
    case (JInt(n), JInt(k)) => return Clamp32(n) == Clamp32(k);
    case (JString(s), JString(t)) => return CStr(s) == CStr(t);
    case (JArray(xs), JArray(ys)) =>
      equal := |xs| == |ys|;
      var i := 0;
      while equal && i < |xs|
        invariant 0 <= i <= |xs|
        invariant equal <==> |xs| == |ys| && forall k :: 0 <= k < i ==> EqFmt(xs[k], ys[k], scan)
        decreases |xs| - i
      {
        equal := JsonObjectEqFmt(xs[i], ys[i], scan);
        i := i + 1;
      }
    case (JObject(ms), JObject(es)) =>
      if |ms| != |es| {
        return false;
      }
      for i := 0 to |ms|
        invariant forall k :: 0 <= k < i ==>
                    GetEx(expected, ms[k].key).Some? && EqFmt(ms[k].value, GetEx(expected, ms[k].key).value, scan)
      {
        var found := GetEx(expected, ms[i].key);
        if found.None? {
          return false;
        }
        var same := JsonObjectEqFmt(ms[i].value, found.value, scan);
        if !same {
          return false;
        }
      }
      return true;
    case _ => return false;
  }

  // ---- It decides equality of meaning ----

  /** The value found under a key is the one the denotation maps it to. */
  lemma FindDenotes(ms: seq<Field>, key: string)
    requires UniqueKeys(ms)
    ensures Find(ms, key).Some? <==> key in DenoteMembers(ms)
    ensures Find(ms, key).Some? ==> DenoteMembers(ms)[key] == Denote(Find(ms, key).value)
  {
  }

  /** Equally many keys and one-way inclusion suffice for equal maps. */
  lemma EqualBySizeAndInclusion(m: map<string, Value>, n: map<string, Value>)
    requires |m| == |n|
    requires forall k :: k in m ==> k in n && m[k] == n[k]
    ensures m == n
  {
    SameSizeSubset(m.Keys, n.Keys);
  }

  lemma {:induction false} SameSizeSubset(a: set<string>, b: set<string>)
    requires a <= b && |a| == |b|
    ensures a == b
  {
    if a != {} {
      var x :| x in a;
      SameSizeSubset(a - {x}, b - {x});
    }
  }

  /** On documents without patterns the comparison decides structural equality up
      to the order of object members. */
  lemma {:induction false} EqFmtDecides(a: Json, e: Json, scan: (Json, Pattern) -> bool)
    requires WellFormed(a) && WellFormed(e) && FormatFree(e)
    ensures EqFmt(a, e, scan) <==> Denote(a) == Denote(e)
    decreases a, 2
  {
    match (a, e)
    case (JArray(xs), JArray(ys)) =>
      if |xs| == |ys| {
        forall i | 0 <= i < |xs|
          ensures EqFmt(xs[i], ys[i], scan) <==> Denote(xs[i]) == Denote(ys[i])
        {
          EqFmtDecides(xs[i], ys[i], scan);
        }
        if EqFmt(a, e, scan) {
          assert DenoteItems(xs) == DenoteItems(ys);
        }
      }
    case (JObject(ms), JObject(es)) =>
      MembersDecide(a, e, scan);
    case _ =>
  }

  /** One member of the actual object against the expected object. */
  lemma MemberDecides(f: Field, e: Json, scan: (Json, Pattern) -> bool)
    requires WellFormed(f.value) && WellFormed(e) && FormatFree(e) && e.JObject?
    ensures var found, n := GetEx(e, f.key), DenoteMembers(e.fields);
            && (found.Some? <==> f.key in n)
            && (found.Some? ==> (EqFmt(f.value, found.value, scan) <==> Denote(f.value) == n[f.key]))
    decreases f.value, 3
  {
    FindDenotes(e.fields, f.key);
    FindIsMember(e.fields, f.key);
    var found := GetEx(e, f.key);
    if found.Some? {
      var i :| 0 <= i < |e.fields| && e.fields[i] == Field(f.key, found.value);
      assert FormatFree(e.fields[i].value) && WellFormed(e.fields[i].value);
      EqFmtDecides(f.value, found.value, scan);
    }
  }

  lemma MembersDecide(a: Json, e: Json, scan: (Json, Pattern) -> bool)
    requires WellFormed(a) && WellFormed(e) && FormatFree(e)
    requires a.JObject? && e.JObject?
    ensures EqFmt(a, e, scan) <==> DenoteMembers(a.fields) == DenoteMembers(e.fields)
    decreases a, 1
  {
    var ms := a.fields;
    var m, n := DenoteMembers(ms), DenoteMembers(e.fields);
    MembersDenote(ms);
    MembersDenote(e.fields);
    forall i | 0 <= i < |ms|
      ensures GetEx(e, ms[i].key).Some? && EqFmt(ms[i].value, GetEx(e, ms[i].key).value, scan)
              <==> ms[i].key in n && m[ms[i].key] == n[ms[i].key]
    {
      MemberDecides(ms[i], e, scan);
    }
    if EqFmt(a, e, scan) {
      forall k | k in m
        ensures k in n && m[k] == n[k]
      {
        DenotedKeys(ms, k);
        var i :| 0 <= i < |ms| && ms[i].key == k;
      }
      EqualBySizeAndInclusion(m, n);
    }
  }

  /** Hence, on such documents, it is an equivalence. */
  lemma EqFmtEquivalence(a: Json, b: Json, c: Json, scan: (Json, Pattern) -> bool)
    requires WellFormed(a) && WellFormed(b) && WellFormed(c)
    requires FormatFree(a) && FormatFree(b) && FormatFree(c)
    ensures EqFmt(a, a, scan)
    ensures EqFmt(a, b, scan) <==> EqFmt(b, a, scan)
    ensures EqFmt(a, b, scan) && EqFmt(b, c, scan) ==> EqFmt(a, c, scan)
  {
    EqFmtDecides(a, a, scan);
    EqFmtDecides(a, b, scan);
    EqFmtDecides(b, a, scan);
    EqFmtDecides(b, c, scan);
    EqFmtDecides(a, c, scan);
  }

  /** What makes an expected document a pattern: being an object whose one member is
      keyed `$fmt_quoted`, or `$fmt` with something else than null under it.  The actual
      document is then given to the scan, with its quotes or without. */
  lemma PatternsScan(actual: Json, key: string, v: Json, scan: (Json, Pattern) -> bool)
    ensures var expected := JObject([Field(key, v)]);
            && (key == "$fmt_quoted" ==> EqFmt(actual, expected, scan) == scan(actual, Quoted(v)))
            && (key == "$fmt" && !v.JNull? ==> EqFmt(actual, expected, scan) == scan(actual, Plain(v)))
            && (key !in {"$fmt", "$fmt_quoted"} || (key == "$fmt" && v.JNull?) ==> GetFmt(expected).None?)
    ensures !actual.JObject? || |actual.fields| != 1 ==> GetFmt(actual).None?
  {
    var fields := [Field(key, v)];
    assert fields[1..] == [];
    assert Find(fields, "$fmt_quoted") == if key == "$fmt_quoted" then Some(v) else None;
    assert Find(fields, "$fmt") == if key == "$fmt" then Some(v) else None;
  }

  /** With a pattern on one side symmetry fails: a matching number equals the
      pattern, the pattern does not equal the number. */
  lemma PatternsBreakSymmetry()
    ensures var pattern := JObject([Field("$fmt", JString("%*d"))]);
            EqFmt(JInt(4), pattern, (_, _) => true) && !EqFmt(pattern, JInt(4), (_, _) => true)
  {
  }
}
