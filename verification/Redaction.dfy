// The redaction of src/proxy_capture.rs: values under sensitive keys are replaced before an event is shown.
module Redaction {
  import opened Bytes
  import opened Bon

  const SENSITIVE := [
    "token", "accesstoken", "refreshtoken", "session", "sessionid", "sessid", "connid", "connectionid", "openid",
    "unionid", "roleid", "userid", "accountid", "deviceid", "uid", "name", "nickname", "sessionkey",
    "sessiontoken", "authtoken", "credential", "authorization", "password", "secret"]

  const REDACTED := Text(Ascii("[REDACTED]"))

  /** ASCII lower case, without underscores and hyphens. */
  function Normalized(key: Bytes): Bytes {
    if key == [] then []
    else
      var c := key[0];
      (if c == 95 || c == 45 then [] else [if 65 <= c <= 90 then c + 32 else c]) + Normalized(key[1..])
  }

  predicate IsSensitive(key: Bytes) { exists i :: 0 <= i < |SENSITIVE| && Normalized(key) == Ascii(SENSITIVE[i]) }

  function Redact(v: Value): Value
    decreases v
  {
    match v
    case Array(vs) => Array(RedactItems(vs))
    case Object(fs) => Object(RedactFields(fs))
    case _ => v
  }

  function RedactItems(vs: seq<Value>): (r: seq<Value>)
    ensures |r| == |vs| && forall i :: 0 <= i < |vs| ==> r[i] == Redact(vs[i])
    decreases vs
  {
    if vs == [] then [] else [Redact(vs[0])] + RedactItems(vs[1..])
  }

  function RedactFields(fs: seq<Field>): (r: seq<Field>)
    ensures |r| == |fs|
    ensures forall i :: 0 <= i < |fs| ==>
              r[i] == Field(fs[i].key, if IsSensitive(fs[i].key) then REDACTED else Redact(fs[i].value))
    decreases fs
  {
    if fs == [] then []
    else
      [Field(fs[0].key, if IsSensitive(fs[0].key) then REDACTED else Redact(fs[0].value))] + RedactFields(fs[1..])
  }

  /** redact_value */
  method RedactValue(value: Value) returns (redacted: Value)
    ensures redacted == Redact(value)
    decreases value, 1
  {
    match value
    case Object(fs) =>
      var fields := RedactEach(fs);
      redacted := Object(fields);
    case Array(vs) =>
      var items := RedactAll(vs);
      redacted := Array(items);
    case _ => redacted := value;
  }

  method RedactEach(fs: seq<Field>) returns (out: seq<Field>)
    ensures out == RedactFields(fs)
    decreases fs, 0
  {
    hide IsSensitive, Redact, RedactFields;
    ghost var all := RedactFields(fs);
    out := [];
    for i := 0 to |fs|
      invariant |out| == i && forall k :: 0 <= k < i ==> out[k] == all[k]
    {
      if IsSensitive(fs[i].key) {
        out := out + [Field(fs[i].key, REDACTED)];
      } else {
        var inner := RedactValue(fs[i].value);
        out := out + [Field(fs[i].key, inner)];
      }
    }
  }

  method RedactAll(vs: seq<Value>) returns (out: seq<Value>)
    ensures out == RedactItems(vs)
    decreases vs, 0
  {
    hide Redact;
    out := [];
    for i := 0 to |vs|
      invariant out == RedactItems(vs)[..i]
    {
      var inner := RedactValue(vs[i]);
      out := out + [inner];
    }
  }

  // ---------------------------------------------------------------- what it hides and what it keeps

  /** The same apart from what lies under sensitive keys. */
  predicate Alike(a: Value, b: Value)
    decreases a
  {
    match a
    case Array(vs) => b.Array? && |vs| == |b.items| && forall i :: 0 <= i < |vs| ==> Alike(vs[i], b.items[i])
    case Object(fs) =>
      b.Object? && |fs| == |b.fields|
      && forall i :: 0 <= i < |fs| ==>
           fs[i].key == b.fields[i].key && (IsSensitive(fs[i].key) || Alike(fs[i].value, b.fields[i].value))
    case _ => a == b
  }

  /** Redaction changes nothing outside the sensitive keys, under which it leaves one fixed text. */
  lemma {:induction false} RedactionKeepsTheRest(v: Value)
    ensures Alike(v, Redact(v))
    ensures v.Object? ==>
              forall i :: 0 <= i < |v.fields| && IsSensitive(v.fields[i].key) ==>
                Redact(v).fields[i].value == Text(Ascii("[REDACTED]"))
    decreases v
  {
    hide IsSensitive;
    match v
    case Array(vs) =>
      forall i | 0 <= i < |vs| ensures Alike(vs[i], Redact(vs[i])) {
        RedactionKeepsTheRest(vs[i]);
      }
    case Object(fs) =>
      forall i | 0 <= i < |fs| ensures Alike(fs[i].value, Redact(fs[i].value)) {
        RedactionKeepsTheRest(fs[i].value);
      }
    case _ =>
  }

  /** It shows exactly what lies outside them: two values look the same redacted if and only if they differ
      under sensitive keys only. */
  lemma {:induction false} RedactionHidesExactly(a: Value, b: Value)
    ensures Redact(a) == Redact(b) <==> Alike(a, b)
    decreases a
  {
    hide IsSensitive;
    if a.Array? && b.Array? && |a.items| == |b.items| {
      forall i | 0 <= i < |a.items|
        ensures Redact(a.items[i]) == Redact(b.items[i]) <==> Alike(a.items[i], b.items[i])
      {
        RedactionHidesExactly(a.items[i], b.items[i]);
      }
      SameItems(a.items, b.items);
    } else if a.Object? && b.Object? && |a.fields| == |b.fields| {
      forall i | 0 <= i < |a.fields|
        ensures Redact(a.fields[i].value) == Redact(b.fields[i].value) <==> Alike(a.fields[i].value, b.fields[i].value)
      {
        RedactionHidesExactly(a.fields[i].value, b.fields[i].value);
      }
      SameFields(a.fields, b.fields);
    }
  }

  lemma SameItems(vs: seq<Value>, ws: seq<Value>)
    requires |vs| == |ws|
    ensures RedactItems(vs) == RedactItems(ws) <==> forall i :: 0 <= i < |vs| ==> Redact(vs[i]) == Redact(ws[i])
  {
    hide Redact, RedactItems;
    if RedactItems(vs) == RedactItems(ws) {
      forall i | 0 <= i < |vs| ensures Redact(vs[i]) == Redact(ws[i]) {
        assert RedactItems(vs)[i] == RedactItems(ws)[i];
      }
    }
  }

  lemma SameFields(fs: seq<Field>, gs: seq<Field>)
    requires |fs| == |gs|
    ensures RedactFields(fs) == RedactFields(gs)
            <==> forall i :: 0 <= i < |fs| ==>
                   fs[i].key == gs[i].key && (IsSensitive(fs[i].key) || Redact(fs[i].value) == Redact(gs[i].value))
  {
    hide Redact, RedactFields, IsSensitive;
    if RedactFields(fs) == RedactFields(gs) {
      forall i | 0 <= i < |fs|
        ensures fs[i].key == gs[i].key && (IsSensitive(fs[i].key) || Redact(fs[i].value) == Redact(gs[i].value))
      {
        assert RedactFields(fs)[i] == RedactFields(gs)[i];
      }
    }
  }

  // ---------------------------------------------------------------- which keys are hidden

  /** The key is the name letter by letter, each one small or capital, with underscores and hyphens anywhere. */
  predicate Spells(key: Bytes, name: string) {
    if key == [] then name == ""
    else if key[0] == '_' as int || key[0] == '-' as int then Spells(key[1..], name)
    else
      && name != ""
      && (key[0] == name[0] as int || key[0] == name[0] as int - 32)
      && Spells(key[1..], name[1..])
  }

  lemma {:induction false} NormalizedIffSpells(key: Bytes, name: string)
    requires forall i :: 0 <= i < |name| ==> 'a' <= name[i] <= 'z'
    ensures Normalized(key) == Ascii(name) <==> Spells(key, name)
  {
    if key != [] {
      var c := key[0];
      if c == 95 || c == 45 {
        NormalizedIffSpells(key[1..], name);
        assert [] + Normalized(key[1..]) == Normalized(key[1..]);
      } else if name != "" {
        NormalizedIffSpells(key[1..], name[1..]);
        AsciiCons(name);
        HeadsAndTails([if 65 <= c <= 90 then c + 32 else c], Normalized(key[1..]), Ascii(name));
      }
    }
  }

  lemma AsciiCons(name: string)
    requires name != "" && 'a' <= name[0] <= 'z'
    ensures Ascii(name) != [] && Ascii(name)[0] == name[0] as int && Ascii(name)[1..] == Ascii(name[1..])
  {
  }

  lemma HeadsAndTails(head: Bytes, tail: Bytes, s: Bytes)
    requires |head| == 1 && s != []
    ensures head + tail == s <==> head[0] == s[0] && tail == s[1..]
  {
    assert (head + tail)[1..] == tail;
    assert s == [s[0]] + s[1..];
    assert head == [head[0]];
  }

  /** A key is hidden exactly when it spells one of these twenty-four names. */
  lemma IsSensitiveIff(key: Bytes)
    ensures var names := [
              "token", "accesstoken", "refreshtoken", "session", "sessionid", "sessid", "connid", "connectionid",
              "openid", "unionid", "roleid", "userid", "accountid", "deviceid", "uid", "name", "nickname",
              "sessionkey", "sessiontoken", "authtoken", "credential", "authorization", "password", "secret"];
            IsSensitive(key) <==> exists i :: 0 <= i < 24 && Spells(key, names[i])
  {
    hide Normalized, Spells;
    forall i | 0 <= i < |SENSITIVE|
      ensures Normalized(key) == Ascii(SENSITIVE[i]) <==> Spells(key, SENSITIVE[i])
    {
      NormalizedIffSpells(key, SENSITIVE[i]);
    }
  }
}
