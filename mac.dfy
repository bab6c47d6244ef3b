/** `ipAddressToVMwareMac`: a MAC address in VMware's range derived from an IPv4 address. */
module Mac {
  import opened Wrappers
  import opened Errors
  import opened Text

  /** The vendor prefix the code writes (00:50:56, VMware's organisationally unique identifier). */
  const VMwarePrefix := "00:50:56:"

  /** The MAC for `ipaddress`: the prefix, then the second, third and fourth dot-separated
      fields as `'%x'` renders them. The first field is never read. The address must split
      into exactly four fields, and the last three must be integers, tried in order. */
  function IpAddressToVMwareMac(ipaddress: string): Result<string, Error>
  {
    var parts := Split(ipaddress, '.');
    if |parts| != 4 then Err(MalformedAddress(ipaddress))
    else
      match (ParseInt(parts[1]), ParseInt(parts[2]), ParseInt(parts[3]))
      case (None, _, _) => Err(InvalidInteger(parts[1]))
      case (Some(_), None, _) => Err(InvalidInteger(parts[2]))
      case (Some(_), Some(_), None) => Err(InvalidInteger(parts[3]))
      case (Some(b), Some(c), Some(d)) => Ok(MacFromOctets(b, c, d))
  }

  /** When the derivation succeeds and how it fails: it succeeds exactly when the address has
      four dotted fields and the last three are integers; a wrong field count is reported as
      a malformed address; a derived MAC starts with the vendor prefix and goes on past it. */
  lemma MacOutcome(ipaddress: string)
    ensures var r, p := IpAddressToVMwareMac(ipaddress), Split(ipaddress, '.');
            r.Ok? <==> |p| == 4 && ParseInt(p[1]).Some? && ParseInt(p[2]).Some? && ParseInt(p[3]).Some?
    ensures |Split(ipaddress, '.')| != 4 ==> IpAddressToVMwareMac(ipaddress) == Err(MalformedAddress(ipaddress))
    ensures var r := IpAddressToVMwareMac(ipaddress);
            r.Ok? ==> |r.value| > |VMwarePrefix| && r.value[..|VMwarePrefix|] == VMwarePrefix
  {
  }

  /** The prefix followed by three `'%x'` renderings, colon-separated. */
  function MacFromOctets(b: int, c: int, d: int): string
  {
    VMwarePrefix + FormatHex(b) + ":" + FormatHex(c) + ":" + FormatHex(d)
  }

  /** Three fields joined by a separator. */
  lemma JoinThree(x: string, y: string, z: string, sep: char)
    ensures Join([x, y, z], sep) == x + [sep] + y + [sep] + z
  {
    JoinCons(y, [z], sep);
    assert [y, z] == [y] + [z];
    JoinCons(x, [y, z], sep);
    assert [x, y, z] == [x] + [y, z];
  }

  /** The MAC is the join of its six colon-separated fields. */
  lemma MacIsJoin(h2: string, h3: string, h4: string)
    ensures Join(["00", "50", "56", h2, h3, h4], ':') == VMwarePrefix + h2 + ":" + h3 + ":" + h4
  {
    var tail := [h2, h3, h4];
    var t := h2 + ":" + h3 + ":" + h4;
    JoinThree(h2, h3, h4, ':');
    JoinCons("56", tail, ':');
    assert ["56", h2, h3, h4] == ["56"] + tail;
    JoinCons("50", ["56", h2, h3, h4], ':');
    assert ["50", "56", h2, h3, h4] == ["50"] + ["56", h2, h3, h4];
    JoinCons("00", ["50", "56", h2, h3, h4], ':');
    assert ["00", "50", "56", h2, h3, h4] == ["00"] + ["50", "56", h2, h3, h4];
    assert "00" + [':'] + ("50" + [':'] + ("56" + [':'] + t)) == VMwarePrefix + t;
  }

  /** The colon-separated fields of such a MAC are the vendor fields and the three renderings. */
  lemma MacFromOctetsFields(b: int, c: int, d: int)
    ensures Split(MacFromOctets(b, c, d), ':') == ["00", "50", "56", FormatHex(b), FormatHex(c), FormatHex(d)]
  {
    var fields := ["00", "50", "56", FormatHex(b), FormatHex(c), FormatHex(d)];
    FormatHexAvoids(b, ':');
    FormatHexAvoids(c, ':');
    FormatHexAvoids(d, ':');
    MacIsJoin(FormatHex(b), FormatHex(c), FormatHex(d));
    assert forall i :: 0 <= i < 6 ==> ':' !in fields[i];
    SplitJoin(fields, ':');
  }

  /** A derived MAC has six colon-separated fields: the three fixed vendor fields, then the
      hexadecimal renderings of the address's second, third and fourth fields, which read
      back to the very integers the address holds. */
  lemma MacFields(ipaddress: string)
    requires IpAddressToVMwareMac(ipaddress).Ok?
    ensures var fields := Split(IpAddressToVMwareMac(ipaddress).value, ':');
            |fields| == 6 && fields[..3] == ["00", "50", "56"]
            && forall i :: 3 <= i < 6 ==> ParseHex(fields[i]) == ParseInt(Split(ipaddress, '.')[i - 2])
  {
    var p := Split(ipaddress, '.');
    var b, c, d := ParseInt(p[1]).value, ParseInt(p[2]).value, ParseInt(p[3]).value;
    assert IpAddressToVMwareMac(ipaddress).value == MacFromOctets(b, c, d);
    MacFromOctetsFields(b, c, d);
    FormatHexRoundTrip(b);
    FormatHexRoundTrip(c);
    FormatHexRoundTrip(d);
  }

  /** The first field plays no part: two addresses that differ only there succeed or fail
      together, and give the same MAC when they succeed. */
  lemma FirstOctetIgnored(first: string, other: string, rest: string)
    requires '.' !in first && '.' !in other
    ensures IpAddressToVMwareMac(first + "." + rest).Ok? <==> IpAddressToVMwareMac(other + "." + rest).Ok?
    ensures IpAddressToVMwareMac(first + "." + rest).Ok? ==>
              IpAddressToVMwareMac(first + "." + rest) == IpAddressToVMwareMac(other + "." + rest)
  {
    SplitAfterField(first, '.', rest);
    SplitAfterField(other, '.', rest);
    var a := Split(first + "." + rest, '.');
    var o := Split(other + "." + rest, '.');
    assert |a| == |o| && forall i :: 1 <= i < |a| ==> a[i] == o[i];
  }

  /** For the dotted form of four integers the MAC is the prefix followed by the
      unpadded lower-case hex of the last three. */
  lemma MacOfDottedQuad(a: int, b: int, c: int, d: int)
    ensures IpAddressToVMwareMac(FormatInt(a) + "." + FormatInt(b) + "." + FormatInt(c) + "." + FormatInt(d))
            == Ok(MacFromOctets(b, c, d))
  {
    var quad := [FormatInt(a), FormatInt(b), FormatInt(c), FormatInt(d)];
    FormatIntAvoids(a, '.');
    FormatIntAvoids(b, '.');
    FormatIntAvoids(c, '.');
    FormatIntAvoids(d, '.');
    assert Join(quad, '.') == FormatInt(a) + "." + FormatInt(b) + "." + FormatInt(c) + "." + FormatInt(d) by {
      var qa, qb, qc, qd := FormatInt(a), FormatInt(b), FormatInt(c), FormatInt(d);
      JoinCons(qc, [qd], '.');
      JoinCons(qb, [qc, qd], '.');
      JoinCons(qa, [qb, qc, qd], '.');
      assert quad == [qa] + [qb, qc, qd];
    }
    assert forall i :: 0 <= i < 4 ==> '.' !in quad[i];
    SplitJoin(quad, '.');
    ParseFormatInt(b);
    ParseFormatInt(c);
    ParseFormatInt(d);
  }

  lemma ExampleDotted()
    ensures FormatInt(192) + "." + FormatInt(168) + "." + FormatInt(12) + "." + FormatInt(34) == "192.168.12.34"
  {
    assert DecimalString(1) == "1" && DecimalString(19) == "19" && DecimalString(192) == "192";
    assert DecimalString(16) == "16" && DecimalString(168) == "168";
    assert DecimalString(12) == "12";
    assert DecimalString(3) == "3" && DecimalString(34) == "34";
  }

  lemma ExampleMac()
    ensures MacFromOctets(168, 12, 34) == "00:50:56:a8:c:22"
  {
    assert HexString(10) == "a" && HexString(168) == "a8";
    assert HexString(12) == "c";
    assert HexString(2) == "2" && HexString(34) == "22";
  }

  /** The worked example: 168, 12 and 34 become a8, c and 22. */
  lemma ExampleAddress()
    ensures IpAddressToVMwareMac("192.168.12.34") == Ok("00:50:56:a8:c:22")
  {
    ExampleDotted();
    ExampleMac();
    MacOfDottedQuad(192, 168, 12, 34);
  }
}
