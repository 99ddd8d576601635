/**
 * The service record cerebrum publishes and browses for (struct s_service_data), and the
 * check of a peer's TXT key against cerebrum's own key.
 *
 * Records are compared by address (the publication group finds them by pointer), so a
 * record is a class; none of its fields is reassigned after s_service_generate, so they
 * are constants. A C string is its bytes (`Text`), without the terminating NUL and with no
 * NUL inside; lengths and comparisons count bytes, as strlen and strncmp do. A NULL pointer
 * is None.
 */
module AvahiService {
  import opened Wrappers
  import opened Errno

  /** The bytes of a C string, without the terminating NUL. */
  type Text = seq<uint8>

  /** A literal made only of ASCII characters, one byte each. */
  predicate IsAscii(s: string)
  {
    forall i :: 0 <= i < |s| ==> s[i] as int < 0x80
  }

  /** The bytes of an ASCII literal. */
  function Ascii(s: string): (bytes: Text)
    requires IsAscii(s)
    ensures |bytes| == |s| && forall i :: 0 <= i < |s| ==> bytes[i] == s[i] as int
  {
    seq(|s|, i requires 0 <= i < |s| => s[i] as int)
  }

  /** _g_service_key: the TXT record that marks a cerebrum service. */
  const ServiceKey: Text := Ascii("id=d6c4e9bcccdb8b16083036b45048dd52")

  /** AVAHI_IF_UNSPEC and AVAHI_PROTO_INET. */
  const IF_UNSPEC: int := -1
  const PROTO_INET: int := 0

  const ServiceName: Text := Ascii("cerebrum")
  const ServiceType: Text := Ascii("_http._tcp")
  const ServicePort: uint16 := 651

  /** Bytes C can hold as a string: no NUL inside them. */
  predicate CString(s: Text)
  {
    forall i :: 0 <= i < |s| ==> s[i] != 0
  }

  class ServiceData {
    const data: Option<Text>
    const domain: Option<Text>
    const host: Option<Text>
    const interface: int
    const name: Option<Text>
    const port: uint16
    const protocol: int
    const serviceType: Option<Text>

    /** s_service_generate: the fixed record (each string a fresh copy, here a value). */
    constructor Generate()
      ensures data == Some(ServiceKey) && domain == None && host == None
      ensures interface == IF_UNSPEC && protocol == PROTO_INET
      ensures name == Some(ServiceName) && port == ServicePort && serviceType == Some(ServiceType)
    {
      data := Some(ServiceKey);
      domain := None;
      host := None;
      interface := IF_UNSPEC;
      name := Some(ServiceName);
      port := ServicePort;
      protocol := PROTO_INET;
      serviceType := Some(ServiceType);
    }
  }

  /** What s_service_free hands back to the allocator, in order. */
  datatype Release = NameField | TypeField | DomainField | HostField | DataField | Record

  /** Whether the record holds the field f (a non-NULL pointer). */
  predicate Owns(d: ServiceData, f: Release)
  {
    match f
    case NameField => d.name.Some?
    case TypeField => d.serviceType.Some?
    case DomainField => d.domain.Some?
    case HostField => d.host.Some?
    case DataField => d.data.Some?
    case Record => false
  }

  /** The order in which s_service_free looks at the fields. */
  const FreeOrder: seq<Release> := [NameField, TypeField, DomainField, HostField, DataField]

  /** The fields among the first n of FreeOrder that the record owns, in that order. */
  function OwnedUpTo(d: ServiceData, n: nat): seq<Release>
    requires n <= |FreeOrder|
  {
    if n == 0 then []
    else OwnedUpTo(d, n - 1) + (if Owns(d, FreeOrder[n - 1]) then [FreeOrder[n - 1]] else [])
  }

  /** The string fields a record owns, in the order they are freed. */
  function OwnedFields(d: ServiceData): (fields: seq<Release>)
  {
    OwnedUpTo(d, |FreeOrder|)
  }

  /** OwnedUpTo keeps exactly the owned fields among the first n, each once, in FreeOrder's order. */
  lemma {:induction false} OwnedUpToSpec(d: ServiceData, n: nat)
    requires n <= |FreeOrder|
    ensures forall f :: f in OwnedUpTo(d, n) <==> f in FreeOrder[..n] && Owns(d, f)
    ensures forall i, j :: 0 <= i < j < |OwnedUpTo(d, n)| ==> OwnedUpTo(d, n)[i] != OwnedUpTo(d, n)[j]
    ensures |OwnedUpTo(d, n)| <= n
  {
    if n > 0 {
      OwnedUpToSpec(d, n - 1);
      assert FreeOrder[..n] == FreeOrder[..n - 1] + [FreeOrder[n - 1]];
    }
  }

  /** A record's freed fields are exactly its non-NULL ones, each once, and never the record. */
  lemma OwnedFieldsSpec(d: ServiceData)
    ensures forall f :: f in OwnedFields(d) <==> f != Record && Owns(d, f)
    ensures |OwnedFields(d)| <= 5 && Record !in OwnedFields(d)
  {
    OwnedUpToSpec(d, 5);
    assert FreeOrder[..5] == FreeOrder;
  }

  /** s_service_free: every non-NULL field, then the record itself; nothing for NULL. */
  method Free(d: ServiceData?) returns (released: seq<Release>)
    ensures d == null ==> released == []
    ensures d != null ==> released == OwnedFields(d) + [Record]
  {
    if d == null {
      return [];
    }
    released := [];
    if d.name.Some? {
      released := released + [NameField];
    }
    assert released == OwnedUpTo(d, 1);
    if d.serviceType.Some? {
      released := released + [TypeField];
    }
    assert released == OwnedUpTo(d, 2);
    if d.domain.Some? {
      released := released + [DomainField];
    }
    assert released == OwnedUpTo(d, 3);
    if d.host.Some? {
      released := released + [HostField];
    }
    assert released == OwnedUpTo(d, 4);
    if d.data.Some? {
      released := released + [DataField];
    }
    assert released == OwnedUpTo(d, 5);
    released := released + [Record];
  }

  /** Freeing a generated record releases its name, type and key, then the record. */
  lemma FreeGenerated(d: ServiceData)
    requires d.data == Some(ServiceKey) && d.domain == None && d.host == None
    requires d.name == Some(ServiceName) && d.serviceType == Some(ServiceType)
    ensures OwnedFields(d) + [Record] == [NameField, TypeField, DataField, Record]
  {
    assert OwnedUpTo(d, 1) == [NameField];
    assert OwnedUpTo(d, 2) == [NameField, TypeField];
    assert OwnedUpTo(d, 3) == [NameField, TypeField];
    assert OwnedUpTo(d, 4) == [NameField, TypeField];
  }

  // ---------------------------------------------------------------------------
  // strncmp and the key check

  /** The byte C sees at index i: the terminating NUL past the end. */
  function CharAt(s: Text, i: nat): uint8
  {
    if i < |s| then s[i] else 0
  }

  /**
   * strncmp(a, b, n), by sign: compares at most n bytes, as unsigned char, and stops at
   * the first difference or at a terminating NUL.
   */
  function Strncmp(a: Text, b: Text, n: nat): (r: int)
    ensures -1 <= r <= 1
    decreases n
  {
    if n == 0 then 0
    else if CharAt(a, 0) < CharAt(b, 0) then -1
    else if CharAt(a, 0) > CharAt(b, 0) then 1
    else if CharAt(a, 0) == 0 then 0
    else Strncmp(a[1..], b[1..], n - 1)
  }

  /** For C strings, strncmp over n bytes of a string at least n long is 0 exactly on a match. */
  lemma {:induction false} StrncmpZero(a: Text, b: Text, n: nat)
    requires CString(a) && CString(b) && n <= |b|
    ensures Strncmp(a, b, n) == 0 <==> n <= |a| && a[..n] == b[..n]
    decreases n
  {
    if n > 0 {
      assert CharAt(b, 0) == b[0] && b[0] != 0;
      if CharAt(a, 0) != CharAt(b, 0) {
        assert n <= |a| ==> a[..n][0] != b[..n][0];
      } else {
        assert a[0] == b[0];
        StrncmpZero(a[1..], b[1..], n - 1);
        assert n <= |a| ==> a[..n] == [a[0]] + a[1..][..n - 1];
        assert b[..n] == [b[0]] + b[1..][..n - 1];
      }
    }
  }

  /**
   * s_service_check as written: NULL gives -EINVAL; otherwise both byte lengths (strlen)
   * are cut to eight bits, a length mismatch gives 1 and equal lengths give strncmp over
   * that many bytes.
   */
  function Check(key: Option<Text>): (r: int)
    ensures key.None? <==> r == -EINVAL
    ensures key.Some? && |key.value| % 256 != |ServiceKey| ==> r == 1
  {
    match key
    case None => -EINVAL
    case Some(k) =>
      var size: uint8 := |k| % 256;
      var keySize: uint8 := |ServiceKey| % 256;
      if size != keySize then 1 else Strncmp(k, ServiceKey, size)
  }

  /** The service key is a C string of 35 bytes. */
  lemma ServiceKeyShape()
    ensures |ServiceKey| == 35 && CString(ServiceKey) && ServiceKey[..35] == ServiceKey
  {
  }

  /** Check accepts exactly the keys whose byte length is 35 modulo 256 and that start with the key. */
  lemma CheckAccepts(k: Text)
    requires CString(k)
    ensures Check(Some(k)) == 0 <==> |k| % 256 == |ServiceKey| && k[..|ServiceKey|] == ServiceKey
  {
    ServiceKeyShape();
    if |k| % 256 == 35 {
      assert Check(Some(k)) == Strncmp(k, ServiceKey, 35);
      StrncmpZero(k, ServiceKey, 35);
    }
  }

  /** The eight-bit truncation lets a key 256 bytes too long through ('x' is 0x78). */
  lemma CheckAcceptsOverlongKey()
    ensures var k := ServiceKey + seq(256, i => 0x78);
            CString(k) && k != ServiceKey && Check(Some(k)) == 0
  {
    var k := ServiceKey + seq(256, i => 0x78);
    assert |k| % 256 == |ServiceKey|;
    assert k[..|ServiceKey|] == ServiceKey;
    CheckAccepts(k);
  }

  /**
   * Lengths are byte counts: the key followed by 128 two-byte UTF-8 characters ('é' is
   * 0xC3 0xA9) is 163 characters but 291 bytes long, which eight bits hold as 35.
   */
  lemma CheckCountsBytes()
    ensures var k := ServiceKey + seq(256, i => if i % 2 == 0 then 0xC3 else 0xA9);
            |k| == 291 && CString(k) && Check(Some(k)) == 0
  {
    var k := ServiceKey + seq(256, i => if i % 2 == 0 then 0xC3 else 0xA9);
    ServiceKeyShape();
    assert k[..|ServiceKey|] == ServiceKey;
    CheckAccepts(k);
  }

  /** The check the header describes: 0 exactly for the key itself. */
  function CheckExact(key: Option<Text>): (r: int)
    ensures key.None? <==> r == -EINVAL
  {
    match key
    case None => -EINVAL
    case Some(k) => if |k| != |ServiceKey| then 1 else Strncmp(k, ServiceKey, |k|)
  }

  /** CheckExact accepts exactly the service key, and agrees with Check on keys shorter than 256 bytes. */
  lemma CheckExactAccepts(k: Text)
    requires CString(k)
    ensures CheckExact(Some(k)) == 0 <==> k == ServiceKey
    ensures |k| < 256 ==> Check(Some(k)) == CheckExact(Some(k))
  {
    ServiceKeyShape();
    if |k| == |ServiceKey| {
      StrncmpZero(k, ServiceKey, |k|);
      assert k[..|k|] == k && ServiceKey[..|k|] == ServiceKey;
    }
  }

  /** Round trip: the key a generated record carries passes the check. */
  lemma GeneratedKeyPasses(d: ServiceData)
    requires d.data == Some(ServiceKey)
    ensures Check(d.data) == 0 && CheckExact(d.data) == 0
  {
    assert CString(ServiceKey);
    CheckAccepts(ServiceKey);
    CheckExactAccepts(ServiceKey);
    assert ServiceKey[..|ServiceKey|] == ServiceKey;
  }
}
