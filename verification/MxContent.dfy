/** MX record content (dnsutil/dnsutil.go): validation, and normalization to
    "priority host", the RDATA of section 3.3.9 of RFC 1035. */
module MxContent {
  import opened Basics
  import opened Ascii
  import opened Decimals

  const MAX_PRIORITY: nat := 65535
  const DEFAULT_PRIORITY: nat := 10

  predicate IsLetterOrDigit(c: char) {
    'a' <= c <= 'z' || 'A' <= c <= 'Z' || '0' <= c <= '9'
  }

  predicate ValidLabel(s: string) {
    && 0 < |s| <= 63
    && (forall i :: 0 <= i < |s| ==> IsLetterOrDigit(s[i]) || s[i] == '-')
    && s[0] != '-' && s[|s| - 1] != '-'
  }

  method IsValidLabel(s: string) returns (ok: bool)
    ensures ok == ValidLabel(s)
    ensures ok <==>
              && 1 <= |s| <= 63 && s[0] != '-' && s[|s| - 1] != '-'
              && forall c :: c in s ==> 'a' <= c <= 'z' || 'A' <= c <= 'Z' || '0' <= c <= '9' || c == '-'
  {
    if s == "" || |s| > 63 {
      return false;
    }
    for i := 0 to |s|
      invariant forall j :: 0 <= j < i ==> IsLetterOrDigit(s[j]) || (s[j] == '-' && 0 < j < |s| - 1)
    {
      var c := s[i];
      if IsLetterOrDigit(c) {
      } else if c == '-' {
        if i == 0 || i == |s| - 1 {
          return false;
        }
      } else {
        assert c in s;
        return false;
      }
    }
    return true;
  }

  /** dnsname.TrimDot: one trailing dot is the root separator. */
  function TrimDot(s: string): string {
    TrimSuffix(s, ".")
  }

  predicate ValidDomain(domain: string) {
    var trimmed := TrimDot(domain);
    && trimmed != "" && |trimmed| <= 253
    && |Split(trimmed, '.')| >= 2
    && forall part :: part in Split(trimmed, '.') ==> ValidLabel(part)
  }

  method IsValidDomain(domain: string) returns (ok: bool)
    ensures ok == ValidDomain(domain)
    ensures var name := if domain != "" && domain[|domain| - 1] == '.' then domain[..|domain| - 1] else domain;
            ok <==> && 1 <= |name| <= 253 && |Split(name, '.')| >= 2
                    && forall part :: part in Split(name, '.') ==> ValidLabel(part)
  {
    if domain == "" {
      return false;
    }
    var trimmed := TrimDot(domain);
    if trimmed == "" || |trimmed| > 253 {
      return false;
    }
    var parts := Split(trimmed, '.');
    if |parts| < 2 {
      return false;
    }
    for i := 0 to |parts|
      invariant forall j :: 0 <= j < i ==> ValidLabel(parts[j])
    {
      assert parts[i] in parts;
      var valid := IsValidLabel(parts[i]);
      if !valid {
        return false;
      }
    }
    return true;
  }

  predicate ValidMX(content: string) {
    var fields := Fields(content);
    if |fields| == 1 then ValidDomain(fields[0])
    else |fields| == 2 && ParseUint(fields[0], MAX_PRIORITY).Number? && ValidDomain(fields[1])
  }

  /** The exchange host: the last field when the content reads as a host with or
      without a priority, else the content as it is. */
  function Host(content: string): string {
    var fields := Fields(content);
    if |fields| == 1 then fields[0]
    else if |fields| == 2 && ParseUint(fields[0], MAX_PRIORITY).Number? then fields[1]
    else content
  }

  /** The priority written in the content, if any. */
  function Embedded(content: string): Option<int> {
    var fields := Fields(content);
    if |fields| == 2 && ParseUint(fields[0], MAX_PRIORITY).Number? then Some(ParseUint(fields[0], MAX_PRIORITY).n)
    else None
  }

  /** The priority that wins: explicit, else embedded, else the default. */
  function Priority(content: string, explicit: Option<int>): int {
    if explicit.Some? then explicit.value
    else if Embedded(content).Some? then Embedded(content).value
    else DEFAULT_PRIORITY
  }

  function Canonical(content: string, explicit: Option<int>): string {
    FormatInt(Priority(content, explicit)) + " " + Host(content)
  }

  /** Digits for a number up to 65535. */
  predicate PriorityText(s: string) {
    s != "" && (forall c :: c in s ==> '0' <= c <= '9') && DigitsValue(0, s) <= 65535
  }

  /** Valid content is one field, a domain, or two, a priority and a domain. */
  lemma {:induction false} ValidMXExactly(content: string)
    ensures ValidMX(content) <==>
              || (exists host :: Fields(content) == [host] && ValidDomain(host))
              || exists p, host :: Fields(content) == [p, host] && PriorityText(p) && ValidDomain(host)
  {
    var fields := Fields(content);
    if |fields| == 1 {
      assert fields == [fields[0]];
    } else if |fields| == 2 {
      assert fields == [fields[0], fields[1]];
      ParseUintExact(fields[0], MAX_PRIORITY);
    }
  }

  /** The parts of any content: its host, and the priority written in front of it, if any. */
  lemma {:induction false} PartsExactly(content: string, explicit: Option<int>)
    ensures forall host :: Fields(content) == [host] ==> Host(content) == host && Embedded(content) == None
    ensures forall p, host :: Fields(content) == [p, host] && PriorityText(p) ==>
              Host(content) == host && Embedded(content) == Some(DigitsValue(0, p))
    ensures (forall host :: Fields(content) != [host])
            && (forall p, host :: Fields(content) == [p, host] ==> !PriorityText(p)) ==>
              Host(content) == content && Embedded(content) == None
    ensures explicit.Some? ==> Priority(content, explicit) == explicit.value
    ensures explicit.None? && Embedded(content).Some? ==> Priority(content, explicit) == Embedded(content).value
    ensures explicit.None? && Embedded(content).None? ==> Priority(content, explicit) == 10
  {
    var fields := Fields(content);
    if |fields| == 1 {
      assert fields == [fields[0]];
    } else if |fields| == 2 {
      assert fields == [fields[0], fields[1]];
      ParseUintExact(fields[0], MAX_PRIORITY);
    }
  }

  /** NormalizeMXContent, in its stages; it takes any content. */
  method NormalizeMXContent(content: string, explicit: Option<int>) returns (r: string)
    ensures r == Canonical(content, explicit)
    ensures forall host :: Fields(content) == [host] ==>
              r == FormatInt(if explicit.Some? then explicit.value else 10) + " " + host
    ensures forall p, host :: Fields(content) == [p, host] && PriorityText(p) ==>
              r == FormatInt(if explicit.Some? then explicit.value else DigitsValue(0, p)) + " " + host
    ensures (forall host :: Fields(content) != [host])
            && (forall p, host :: Fields(content) == [p, host] ==> !PriorityText(p)) ==>
              r == FormatInt(if explicit.Some? then explicit.value else 10) + " " + content
  {
    var host := "";
    var embedded: Option<int> := None;
    var fields := Fields(content);
    if |fields| == 1 {
      host := fields[0];
    } else if |fields| == 2 {
      var p := ParseUint(fields[0], MAX_PRIORITY);
      if p.Number? {
        embedded := Some(p.n);
        host := fields[1];
      } else {
        host := content;
      }
    } else {
      host := content;
    }
    var priority := DEFAULT_PRIORITY;
    if explicit.Some? {
      priority := explicit.value;
    } else if embedded.Some? {
      priority := embedded.value;
    }
    PartsExactly(content, explicit);
    return FormatInt(priority) + " " + host;
  }

  lemma {:induction false} SplitCovers(s: string, sep: char, c: char)
    requires c in s && c != sep
    ensures exists part :: part in Split(s, sep) && c in part
  {
    var rest := Split(s[1..], sep);
    if s[0] != sep && s[0] == c {
      var head := [c] + rest[0];
      assert Split(s, sep)[0] == head && head[0] == c;
      assert head in Split(s, sep) && c in head;
    } else {
      assert s == [s[0]] + s[1..];
      SplitCovers(s[1..], sep, c);
      var i :| 0 <= i < |rest| && c in rest[i];
      if s[0] == sep {
        assert Split(s, sep)[i + 1] == rest[i];
      } else if i == 0 {
        var head := [s[0]] + rest[0];
        assert Split(s, sep)[0] == head && c in head;
      } else {
        assert Split(s, sep)[i] == rest[i];
      }
    }
  }

  /** A valid name has no space in it, so it stays one field. */
  lemma {:induction false} DomainIsWord(host: string)
    requires ValidDomain(host)
    ensures Word(host)
  {
    var trimmed := TrimDot(host);
    forall c | c in host ensures !IsSpace(c) {
      if c != '.' {
        assert host == trimmed || host == trimmed + ".";
        SplitCovers(trimmed, '.', c);
        var part :| part in Split(trimmed, '.') && c in part;
        assert ValidLabel(part);
      }
    }
  }

  /** Printing a priority and a host and reading the content back. */
  lemma PrintedContentReads(priority: nat, host: string)
    requires priority <= MAX_PRIORITY && ValidDomain(host)
    ensures var r := FormatInt(priority) + " " + host;
            ValidMX(r) && Host(r) == host && Embedded(r) == Some(priority)
  {
    DomainIsWord(host);
    assert Word(FormatInt(priority)) by {
      assert forall c :: IsDigit(c) ==> !IsSpace(c);
    }
    FieldsOfPair(FormatInt(priority), host);
    PrintedUintParses(priority, MAX_PRIORITY);
  }

  /** Canonical content of anything valid is valid, names the same host and carries the
      winning priority; canonicalizing it again without a flag changes nothing. */
  lemma CanonicalRoundTrip(content: string, explicit: Option<int>)
    requires ValidMX(content)
    requires explicit.Some? ==> 0 <= explicit.value <= MAX_PRIORITY
    ensures var once := Canonical(content, explicit);
            && ValidMX(once)
            && Host(once) == Host(content)
            && Embedded(once) == Some(if explicit.Some? then explicit.value
                                      else if Embedded(content).Some? then Embedded(content).value
                                      else 10)
            && Canonical(once, None) == once
  {
    var fields := Fields(content);
    assert fields[|fields| - 1] in fields;
    PrintedContentReads(Priority(content, explicit), Host(content));
  }
}
