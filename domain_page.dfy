/**
 * Reading the domain configuration page (MENU=300) and the child-account page
 * (MENU=200) into records. Each repeating group is read row by row until the
 * first row whose primary INPUT is absent; a missing secondary element in a
 * present row fails the whole parse.
 */
module DomainPage {
  import opened Wrappers
  import opened Forms

  const Dns := "DNSINFO"
  const Child := "CHILDINFO"
  const DomainNameField := "DNSINFO[domainname]"

  /**
   * MyDNSDomainInfo. The arrays are kept parallel as in the source; `type` is
   * `recordType` here. prio holds the SELECT's value text and update the
   * notify text, since parseInt and Date are not modelled.
   */
  datatype DomainInfo = DomainInfo(
    domainname: string,
    update: Option<string>,
    ipV4: Option<string>,
    ipV6: Option<string>,
    mx: seq<string>,
    prio: seq<string>,
    hostname: seq<string>,
    recordType: seq<string>,
    content: seq<string>,
    delegateid: seq<string>)

  /** MyDNSChildInfo, with iplastdate kept as text. */
  datatype ChildInfo = ChildInfo(
    masterid: seq<string>,
    domainname: seq<string>,
    ipv4addr: seq<string>,
    ipv6addr: seq<string>,
    iplastdate: seq<string>)

  /** The lists of each group have one entry per row. */
  predicate Aligned(d: DomainInfo)
  {
    && |d.prio| == |d.mx|
    && |d.recordType| == |d.hostname|
    && |d.content| == |d.hostname|
    && |d.delegateid| == |d.hostname|
  }

  predicate ChildAligned(c: ChildInfo)
  {
    && |c.domainname| == |c.masterid|
    && |c.ipv4addr| == |c.masterid|
    && |c.ipv6addr| == |c.masterid|
    && |c.iplastdate| == |c.masterid|
  }

  datatype Addresses = Addresses(ipV4: Option<string>, ipV6: Option<string>, update: Option<string>)

  /** The informational fields taken from the user-info text. */
  function AddressesOf(m: UserInfo): (a: Addresses)
    ensures m.NoMatch? ==> a == Addresses(None, None, None)
    ensures m.Matched? ==> a.ipV4 == Some(m.v4) && a.ipV6 == Some(m.v6)
    ensures a.update.Some? <==> m.Matched? && m.notify.Some? && m.notify.value != ""
    ensures a.update.Some? ==> a.update == m.notify
  {
    match m
    case NoMatch => Addresses(None, None, None)
    case Matched(v4, v6, notify) =>
      Addresses(Some(v4), Some(v6), if notify.Some? && notify.value != "" then notify else None)
  }

  /** The rows of the mail-exchanger group: mx from INPUT, prio from SELECT. */
  datatype MailRows = MailRows(mx: seq<string>, prio: seq<string>)

  /** The rows of the host group: hostname and content from INPUT, type and delegateid from SELECT. */
  datatype HostRows = HostRows(hostname: seq<string>, recordType: seq<string>, content: seq<string>, delegateid: seq<string>)

  /** The mail-exchanger rows a page holds, or None when a present row lacks its prio. */
  ghost function MailSpec(doc: Document): (r: Option<MailRows>)
    ensures r.Some? ==> |r.value.prio| == |r.value.mx| && ScanEndsAt(doc, Dns, "mx", |r.value.mx|)
  {
    var n := ScanLength(doc, Dns, "mx");
    if Complete(doc, Select, Dns, "prio", n)
    then Some(MailRows(ColumnOf(doc, Input, Dns, "mx", n), ColumnOf(doc, Select, Dns, "prio", n)))
    else None
  }

  /** The host rows a page holds, or None when a present row lacks one of its other three elements. */
  ghost function HostSpec(doc: Document): (r: Option<HostRows>)
    ensures r.Some? ==> ScanEndsAt(doc, Dns, "hostname", |r.value.hostname|)
    ensures r.Some? ==> |r.value.recordType| == |r.value.content| == |r.value.delegateid| == |r.value.hostname|
  {
    var n := ScanLength(doc, Dns, "hostname");
    if Complete(doc, Select, Dns, "type", n) && Complete(doc, Input, Dns, "content", n)
       && Complete(doc, Select, Dns, "delegateid", n)
    then Some(HostRows(ColumnOf(doc, Input, Dns, "hostname", n), ColumnOf(doc, Select, Dns, "type", n),
      ColumnOf(doc, Input, Dns, "content", n), ColumnOf(doc, Select, Dns, "delegateid", n)))
    else None
  }

  /** What getParams returns for a page: a complete record, or None. */
  ghost function DomainSpec(page: Page): (r: Option<DomainInfo>)
    ensures r.Some? ==> Aligned(r.value)
    ensures r.Some? ==> ScanEndsAt(page.fields, Dns, "mx", |r.value.mx|)
    ensures r.Some? ==> ScanEndsAt(page.fields, Dns, "hostname", |r.value.hostname|)
  {
    var doc := page.fields;
    if page.userInfo.None? || Element(Input, DomainNameField) !in doc then None
    else
      var mail := MailSpec(doc);
      var hosts := HostSpec(doc);
      if mail.None? || hosts.None? then None
      else
        var a := AddressesOf(page.userInfo.value);
        Some(DomainInfo(doc[Element(Input, DomainNameField)], a.update, a.ipV4, a.ipV6,
          mail.value.mx, mail.value.prio,
          hosts.value.hostname, hosts.value.recordType, hosts.value.content, hosts.value.delegateid))
  }

  /** The mail-exchanger loop of getParams. */
  method ReadMailRows(doc: Document) returns (r: Option<MailRows>)
    ensures r == MailSpec(doc)
  {
    ghost var n := ScanLength(doc, Dns, "mx");
    var mx, prio := [], [];
    var i := 0;
    while true
      invariant i <= n
      invariant Complete(doc, Select, Dns, "prio", i)
      invariant mx == ColumnOf(doc, Input, Dns, "mx", i)
      invariant prio == ColumnOf(doc, Select, Dns, "prio", i)
      decreases n - i
    {
      var mxValue := Query(doc, Input, Dns, "mx", i);
      if mxValue.None? {
        break;
      }
      mx := mx + [mxValue.value];
      var prioValue := Query(doc, Select, Dns, "prio", i);
      if prioValue.None? {
        return None;
      }
      ColumnStep(doc, Input, Dns, "mx", i);
      ColumnStep(doc, Select, Dns, "prio", i);
      prio := prio + [prioValue.value];
      i := i + 1;
    }
    r := Some(MailRows(mx, prio));
  }

  /** The three other elements of host row i, read in the source's order; None where a read would throw. */
  method ReadHostRow(doc: Document, i: nat) returns (row: Option<(string, string, string)>)
    ensures row.Some? <==> && Present(doc, Select, Dns, "type", i) && Present(doc, Input, Dns, "content", i)
                           && Present(doc, Select, Dns, "delegateid", i)
    ensures row.Some? ==> row.value == (doc[Element(Select, IndexedName(Dns, "type", i))],
                                        doc[Element(Input, IndexedName(Dns, "content", i))],
                                        doc[Element(Select, IndexedName(Dns, "delegateid", i))])
  {
    var typeValue := Query(doc, Select, Dns, "type", i);
    if typeValue.None? {
      return None;
    }
    var contentValue := Query(doc, Input, Dns, "content", i);
    if contentValue.None? {
      return None;
    }
    var delegateValue := Query(doc, Select, Dns, "delegateid", i);
    if delegateValue.None? {
      return None;
    }
    row := Some((typeValue.value, contentValue.value, delegateValue.value));
  }

  /** A host row before the end of the scan that lacks one of its other elements makes the parse fail. */
  lemma HostRowBroken(doc: Document, i: nat)
    requires i < ScanLength(doc, Dns, "hostname")
    requires !(&& Present(doc, Select, Dns, "type", i) && Present(doc, Input, Dns, "content", i)
               && Present(doc, Select, Dns, "delegateid", i))
    ensures HostSpec(doc).None?
  {
    var n := ScanLength(doc, Dns, "hostname");
    if !Present(doc, Select, Dns, "type", i) {
      AbsentBreaksComplete(doc, Select, Dns, "type", i, n);
    } else if !Present(doc, Input, Dns, "content", i) {
      AbsentBreaksComplete(doc, Input, Dns, "content", i, n);
    } else {
      AbsentBreaksComplete(doc, Select, Dns, "delegateid", i, n);
    }
  }

  /** The host-record loop of getParams. */
  method ReadHostRows(doc: Document) returns (r: Option<HostRows>)
    ensures r == HostSpec(doc)
  {
    ghost var n := ScanLength(doc, Dns, "hostname");
    var hostname, recordType, content, delegateid := [], [], [], [];
    var i := 0;
    while true
      invariant i <= n
      invariant Complete(doc, Select, Dns, "type", i)
      invariant Complete(doc, Input, Dns, "content", i)
      invariant Complete(doc, Select, Dns, "delegateid", i)
      invariant hostname == ColumnOf(doc, Input, Dns, "hostname", i)
      invariant recordType == ColumnOf(doc, Select, Dns, "type", i)
      invariant content == ColumnOf(doc, Input, Dns, "content", i)
      invariant delegateid == ColumnOf(doc, Select, Dns, "delegateid", i)
      decreases n - i
    {
      var hostValue := Query(doc, Input, Dns, "hostname", i);
      if hostValue.None? {
        break;
      }
      var row := ReadHostRow(doc, i);
      if row.None? {
        HostRowBroken(doc, i);
        return None;
      }
      ColumnStep(doc, Input, Dns, "hostname", i);
      ColumnStep(doc, Select, Dns, "type", i);
      ColumnStep(doc, Input, Dns, "content", i);
      ColumnStep(doc, Select, Dns, "delegateid", i);
      hostname := hostname + [hostValue.value];
      recordType := recordType + [row.value.0];
      content := content + [row.value.1];
      delegateid := delegateid + [row.value.2];
      i := i + 1;
    }
    r := Some(HostRows(hostname, recordType, content, delegateid));
  }

  /**
   * getParams: the user-info element and the domain name first, then the two
   * row groups; any missing element makes the whole result None.
   */
  method GetParams(page: Page) returns (r: Option<DomainInfo>)
    ensures r == DomainSpec(page)
  {
    var doc := page.fields;
    if page.userInfo.None? {
      return None;
    }
    var a := AddressesOf(page.userInfo.value);
    var domainElement := Element(Input, DomainNameField);
    if domainElement !in doc {
      return None;
    }
    var domainname := doc[domainElement];
    var mail := ReadMailRows(doc);
    if mail.None? {
      return None;
    }
    var hosts := ReadHostRows(doc);
    if hosts.None? {
      return None;
    }
    r := Some(DomainInfo(domainname, a.update, a.ipV4, a.ipV6, mail.value.mx, mail.value.prio,
      hosts.value.hostname, hosts.value.recordType, hosts.value.content, hosts.value.delegateid));
  }

  /** What the parse in getChildInfo yields: the five lists, or None where it throws. */
  ghost function ChildSpec(doc: Document): (r: Option<ChildInfo>)
    ensures r.Some? ==> ChildAligned(r.value)
    ensures r.Some? ==> ScanEndsAt(doc, Child, "masterid", |r.value.masterid|)
  {
    var n := ScanLength(doc, Child, "masterid");
    if Complete(doc, Input, Child, "domainname", n) && Complete(doc, Input, Child, "ipv4addr", n)
       && Complete(doc, Input, Child, "ipv6addr", n) && Complete(doc, Input, Child, "iplastdate", n)
    then
      Some(ChildInfo(ColumnOf(doc, Input, Child, "masterid", n), ColumnOf(doc, Input, Child, "domainname", n),
        ColumnOf(doc, Input, Child, "ipv4addr", n), ColumnOf(doc, Input, Child, "ipv6addr", n),
        ColumnOf(doc, Input, Child, "iplastdate", n)))
    else None
  }

  /** The four other INPUTs of child row i, read in the source's order; None where a read would throw. */
  method ReadChildRow(doc: Document, i: nat) returns (row: Option<(string, string, string, string)>)
    ensures row.Some? <==> && Present(doc, Input, Child, "domainname", i) && Present(doc, Input, Child, "ipv4addr", i)
                           && Present(doc, Input, Child, "ipv6addr", i) && Present(doc, Input, Child, "iplastdate", i)
    ensures row.Some? ==> row.value == (doc[Element(Input, IndexedName(Child, "domainname", i))],
                                        doc[Element(Input, IndexedName(Child, "ipv4addr", i))],
                                        doc[Element(Input, IndexedName(Child, "ipv6addr", i))],
                                        doc[Element(Input, IndexedName(Child, "iplastdate", i))])
  {
    var domainValue := Query(doc, Input, Child, "domainname", i);
    if domainValue.None? {
      return None;
    }
    var ipv4Value := Query(doc, Input, Child, "ipv4addr", i);
    if ipv4Value.None? {
      return None;
    }
    var ipv6Value := Query(doc, Input, Child, "ipv6addr", i);
    if ipv6Value.None? {
      return None;
    }
    var updateValue := Query(doc, Input, Child, "iplastdate", i);
    if updateValue.None? {
      return None;
    }
    row := Some((domainValue.value, ipv4Value.value, ipv6Value.value, updateValue.value));
  }

  /** A row before the end of the scan that lacks one of the four other INPUTs makes the parse throw. */
  lemma ChildRowBroken(doc: Document, i: nat)
    requires i < ScanLength(doc, Child, "masterid")
    requires !(&& Present(doc, Input, Child, "domainname", i) && Present(doc, Input, Child, "ipv4addr", i)
               && Present(doc, Input, Child, "ipv6addr", i) && Present(doc, Input, Child, "iplastdate", i))
    ensures ChildSpec(doc).None?
  {
    var n := ScanLength(doc, Child, "masterid");
    if !Present(doc, Input, Child, "domainname", i) {
      AbsentBreaksComplete(doc, Input, Child, "domainname", i, n);
    } else if !Present(doc, Input, Child, "ipv4addr", i) {
      AbsentBreaksComplete(doc, Input, Child, "ipv4addr", i, n);
    } else if !Present(doc, Input, Child, "ipv6addr", i) {
      AbsentBreaksComplete(doc, Input, Child, "ipv6addr", i, n);
    } else {
      AbsentBreaksComplete(doc, Input, Child, "iplastdate", i, n);
    }
  }

  /** The row loop of getChildInfo; None stands for the TypeError it throws. */
  method ParseChildInfo(doc: Document) returns (r: Option<ChildInfo>)
    ensures r == ChildSpec(doc)
  {
    ghost var n := ScanLength(doc, Child, "masterid");
    var masterid, domainname, ipv4addr, ipv6addr, iplastdate := [], [], [], [], [];
    var i := 0;
    while true
      invariant i <= n
      invariant Complete(doc, Input, Child, "domainname", i)
      invariant Complete(doc, Input, Child, "ipv4addr", i)
      invariant Complete(doc, Input, Child, "ipv6addr", i)
      invariant Complete(doc, Input, Child, "iplastdate", i)
      invariant masterid == ColumnOf(doc, Input, Child, "masterid", i)
      invariant domainname == ColumnOf(doc, Input, Child, "domainname", i)
      invariant ipv4addr == ColumnOf(doc, Input, Child, "ipv4addr", i)
      invariant ipv6addr == ColumnOf(doc, Input, Child, "ipv6addr", i)
      invariant iplastdate == ColumnOf(doc, Input, Child, "iplastdate", i)
      decreases n - i
    {
      var idValue := Query(doc, Input, Child, "masterid", i);
      if idValue.None? {
        break;
      }
      var row := ReadChildRow(doc, i);
      if row.None? {
        ChildRowBroken(doc, i);
        return None;
      }
      ColumnStep(doc, Input, Child, "masterid", i);
      ColumnStep(doc, Input, Child, "domainname", i);
      ColumnStep(doc, Input, Child, "ipv4addr", i);
      ColumnStep(doc, Input, Child, "ipv6addr", i);
      ColumnStep(doc, Input, Child, "iplastdate", i);
      masterid := masterid + [idValue.value];
      domainname := domainname + [row.value.0];
      ipv4addr := ipv4addr + [row.value.1];
      ipv6addr := ipv6addr + [row.value.2];
      iplastdate := iplastdate + [row.value.3];
      i := i + 1;
    }
    r := Some(ChildInfo(masterid, domainname, ipv4addr, ipv6addr, iplastdate));
  }

  /**
   * getParams fails exactly when the user-info element is missing, the domain
   * name is missing, or a row whose primary INPUT is present lacks one of its
   * other elements.
   */
  lemma DomainParseFailsIff(page: Page)
    ensures var doc := page.fields;
      DomainSpec(page).None? <==>
        || page.userInfo.None?
        || Element(Input, DomainNameField) !in doc
        || (exists j: nat :: j < ScanLength(doc, Dns, "mx") && !Present(doc, Select, Dns, "prio", j))
        || (exists j: nat :: j < ScanLength(doc, Dns, "hostname") &&
              (!Present(doc, Select, Dns, "type", j) || !Present(doc, Input, Dns, "content", j)
               || !Present(doc, Select, Dns, "delegateid", j)))
  {
    var doc := page.fields;
    var nm, nh := ScanLength(doc, Dns, "mx"), ScanLength(doc, Dns, "hostname");
    IncompleteWitness(doc, Select, Dns, "prio", nm);
    IncompleteWitness(doc, Select, Dns, "type", nh);
    IncompleteWitness(doc, Input, Dns, "content", nh);
    IncompleteWitness(doc, Select, Dns, "delegateid", nh);
  }

  /**
   * When the user-info text does not match, the three informational fields
   * stay unset and the parse succeeds whenever a matching text would have let
   * it succeed, with the same lists.
   */
  lemma NoMatchStillParses(doc: Document, u: UserInfo)
    ensures DomainSpec(Page(Some(NoMatch), doc)).Some? <==> DomainSpec(Page(Some(u), doc)).Some?
    ensures DomainSpec(Page(Some(u), doc)).Some? ==>
      DomainSpec(Page(Some(NoMatch), doc))
        == Some(DomainSpec(Page(Some(u), doc)).value.(ipV4 := None, ipV6 := None, update := None))
  {
  }

  /** getChildInfo's parse throws exactly when a present row lacks one of its four other INPUTs. */
  lemma ChildParseFailsIff(doc: Document)
    ensures ChildSpec(doc).None? <==>
      exists j: nat :: j < ScanLength(doc, Child, "masterid") &&
        (|| !Present(doc, Input, Child, "domainname", j) || !Present(doc, Input, Child, "ipv4addr", j)
         || !Present(doc, Input, Child, "ipv6addr", j) || !Present(doc, Input, Child, "iplastdate", j))
  {
    var n := ScanLength(doc, Child, "masterid");
    IncompleteWitness(doc, Input, Child, "domainname", n);
    IncompleteWitness(doc, Input, Child, "ipv4addr", n);
    IncompleteWitness(doc, Input, Child, "ipv6addr", n);
    IncompleteWitness(doc, Input, Child, "iplastdate", n);
  }

  /**
   * A gap truncates: when rows below n are present and row n is absent, a
   * successful parse has exactly n mail exchangers and n host records are read
   * likewise, whatever rows follow the gap.
   */
  lemma GapTruncates(page: Page, nm: nat, nh: nat)
    requires Complete(page.fields, Input, Dns, "mx", nm) && !Present(page.fields, Input, Dns, "mx", nm)
    requires Complete(page.fields, Input, Dns, "hostname", nh) && !Present(page.fields, Input, Dns, "hostname", nh)
    ensures DomainSpec(page).Some? ==> |DomainSpec(page).value.mx| == nm && |DomainSpec(page).value.hostname| == nh
    ensures DomainSpec(page).Some? ==> DomainSpec(page).value.mx == ColumnOf(page.fields, Input, Dns, "mx", nm)
  {
    ScanStopsAtFirstGap(page.fields, Dns, "mx", nm);
    ScanStopsAtFirstGap(page.fields, Dns, "hostname", nh);
  }
}
