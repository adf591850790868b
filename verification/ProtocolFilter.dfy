/** Keeping the protocols a device's fingerprint can back with an identity. */
module ProtocolFilter {
  import opened Collections

  /** An identity block: its fields, and whether each has a value. */
  datatype Identity = NotADict | Fields(present: map<string, bool>)

  type Fingerprint = map<string, Identity>

  /** The table from protocols to identity keys, in its order; an empty key means none is needed. */
  datatype Entry = Entry(protocol: string, key: string)

  const REQUIRED_FIELD: map<string, string> := map[
    "ethernet_ip_identity" := "vendor_id", "profinet_identity" := "vendor_id", "s7_identity" := "order_code",
    "modbus_identity" := "vendor_name", "bacnet_identity" := "vendor_id", "snmp_identity" := "sys_descr",
    "opc_ua_identity" := "manufacturer_name", "dnp3_identity" := "vendor_name", "iec104_identity" := "vendor_name"
  ]

  predicate HasVendorData(fingerprint: Fingerprint, key: string) {
    && key in fingerprint && fingerprint[key].Fields? && fingerprint[key].present != map[]
    && var present := fingerprint[key].present;
       || (key in REQUIRED_FIELD && REQUIRED_FIELD[key] in present && present[REQUIRED_FIELD[key]])
       || present.Keys - {"serial_number", "im0_serial_number"} != {}
  }

  /** The identity key of a protocol, if it has one. */
  function KeyOf(table: seq<Entry>, protocol: string): Option<string> {
    if table == [] then None
    else if table[0].protocol == protocol then (if table[0].key == "" then None else Some(table[0].key))
    else KeyOf(table[1..], protocol)
  }

  /** A protocol the fingerprint can serve: it needs no identity, or has one with vendor data. */
  predicate Valid(table: seq<Entry>, fingerprint: Fingerprint, protocol: string) {
    var key := KeyOf(table, protocol);
    key.None? || HasVendorData(fingerprint, key.value)
  }

  function IsValid(table: seq<Entry>, fingerprint: Fingerprint): string -> bool {
    (p: string) => Valid(table, fingerprint, p)
  }

  /** The protocols of the table whose identity the fingerprint has. */
  function Available(table: seq<Entry>, fingerprint: Fingerprint): seq<string> {
    if table == [] then []
    else if HasVendorData(fingerprint, table[0].key) then [table[0].protocol] + Available(table[1..], fingerprint)
    else Available(table[1..], fingerprint)
  }

  function Fallback(table: seq<Entry>, fingerprint: Fingerprint): string {
    var available := Available(table, fingerprint);
    if available == [] || "modbus_tcp" in available then "modbus_tcp" else available[0]
  }

  function Filtered(table: seq<Entry>, protocols: seq<string>, fingerprint: Fingerprint): seq<string> {
    if protocols == [] then ["modbus_tcp"]
    else if fingerprint == map[] then []
    else
      var validated := Keep(IsValid(table, fingerprint), protocols);
      if validated != [] then validated else [Fallback(table, fingerprint)]
  }

  /** The protocols are a dictionary's keys. */
  ghost predicate DistinctKeys(table: seq<Entry>) {
    forall i, j :: 0 <= i < j < |table| ==> table[i].protocol != table[j].protocol
  }

  method FilterProtocols(table: seq<Entry>, protocols: seq<string>, fingerprint: Fingerprint)
    returns (validated: seq<string>)
    ensures validated == Filtered(table, protocols, fingerprint)
  {
    if protocols == [] {
      return ["modbus_tcp"];
    }
    if fingerprint == map[] {
      return [];
    }
    validated := [];
    for i := 0 to |protocols|
      invariant validated == Keep(IsValid(table, fingerprint), protocols[..i])
    {
      var p := protocols[i];
      TakeNext(protocols, i);
      KeepSnoc(IsValid(table, fingerprint), protocols[..i], p);
      var key := KeyOf(table, p);
      if key.Some? {
        if HasVendorData(fingerprint, key.value) {
          validated := validated + [p];
        }
      } else {
        validated := validated + [p];
      }
    }
    assert protocols[..|protocols|] == protocols;
    if validated == [] {
      var available := CollectAvailable(table, fingerprint);
      if available != [] {
        if "modbus_tcp" in available {
          validated := ["modbus_tcp"];
        } else {
          validated := [available[0]];
        }
      } else {
        validated := ["modbus_tcp"];
      }
    }
  }

  method CollectAvailable(table: seq<Entry>, fingerprint: Fingerprint) returns (available: seq<string>)
    ensures available == Available(table, fingerprint)
  {
    available := [];
    for i := 0 to |table|
      invariant available + Available(table[i..], fingerprint) == Available(table, fingerprint)
    {
      assert table[i..][0] == table[i] && table[i..][1..] == table[i + 1..];
      if HasVendorData(fingerprint, table[i].key) {
        assert available + ([table[i].protocol] + Available(table[i + 1..], fingerprint))
            == (available + [table[i].protocol]) + Available(table[i + 1..], fingerprint);
        available := available + [table[i].protocol];
      }
    }
    assert table[|table|..] == [] && available + [] == available;
  }

  lemma {:induction false} KeyOfEntry(table: seq<Entry>, i: nat)
    requires DistinctKeys(table) && i < |table|
    ensures KeyOf(table, table[i].protocol) == if table[i].key == "" then None else Some(table[i].key)
  {
    if i > 0 { KeyOfEntry(table[1..], i - 1); }
  }

  lemma {:induction false} AvailableExactly(table: seq<Entry>, fingerprint: Fingerprint)
    ensures forall p :: p in Available(table, fingerprint) <==>
              exists i :: 0 <= i < |table| && table[i].protocol == p && HasVendorData(fingerprint, table[i].key)
  {
    if table != [] {
      AvailableExactly(table[1..], fingerprint);
      assert forall i :: 1 <= i < |table| ==> table[1..][i - 1] == table[i];
      assert forall i :: 0 <= i < |table| - 1 ==> table[1..][i] == table[i + 1];
    }
  }

  lemma {:induction false} AvailableIsValid(table: seq<Entry>, fingerprint: Fingerprint, p: string)
    requires DistinctKeys(table) && p in Available(table, fingerprint)
    ensures Valid(table, fingerprint, p)
  {
    AvailableExactly(table, fingerprint);
    var i :| 0 <= i < |table| && table[i].protocol == p && HasVendorData(fingerprint, table[i].key);
    KeyOfEntry(table, i);
  }

  /** Whether a single fallback survives being filtered again. */
  lemma {:induction false} FallbackIsStable(table: seq<Entry>, fingerprint: Fingerprint)
    requires DistinctKeys(table) && fingerprint != map[]
    ensures Filtered(table, [Fallback(table, fingerprint)], fingerprint) == [Fallback(table, fingerprint)]
  {
    var available, p := Available(table, fingerprint), Fallback(table, fingerprint);
    if available != [] { AvailableIsValid(table, fingerprint, p); }
    KeepSnoc(IsValid(table, fingerprint), [], p);
    assert [] + [p] == [p];
  }

  /**
    A non-empty request against a real fingerprint yields the valid part of the
    request, in order, or else a single fallback: one the fingerprint backs if it
    backs any, with Modbus preferred.
   */
  lemma {:induction false} FilterResult(table: seq<Entry>, protocols: seq<string>, fingerprint: Fingerprint)
    requires DistinctKeys(table) && protocols != [] && fingerprint != map[]
    ensures var r := Filtered(table, protocols, fingerprint);
            && r != []
            && if exists p <- protocols :: Valid(table, fingerprint, p)
               then
                 && r == Keep(IsValid(table, fingerprint), protocols)
                 && forall p <- r :: p in protocols && Valid(table, fingerprint, p)
               else |r| == 1 && if Available(table, fingerprint) == [] then r[0] == "modbus_tcp"
                                else r[0] in Available(table, fingerprint) && Valid(table, fingerprint, r[0])
  {
    KeepSubset(IsValid(table, fingerprint), protocols);
    if exists p <- protocols :: Valid(table, fingerprint, p) {
      var p :| p in protocols && Valid(table, fingerprint, p);
      assert p in Keep(IsValid(table, fingerprint), protocols);
    } else {
      KeepNone(IsValid(table, fingerprint), protocols);
    }
    if Available(table, fingerprint) != [] {
      AvailableIsValid(table, fingerprint, Fallback(table, fingerprint));
    }
  }

  /** An identity with some field besides its serial numbers. */
  ghost predicate Backs(fingerprint: Fingerprint, key: string) {
    && key in fingerprint && fingerprint[key].Fields?
    && exists field <- fingerprint[key].present :: field != "serial_number" && field != "im0_serial_number"
  }

  /** The field required of an identity is beside the point: any field but a serial number will do. */
  lemma {:induction false} VendorDataExactly(fingerprint: Fingerprint, key: string)
    ensures HasVendorData(fingerprint, key) <==> Backs(fingerprint, key)
  {
    if key in fingerprint && fingerprint[key].Fields? {
      var present := fingerprint[key].present;
      if key in REQUIRED_FIELD && REQUIRED_FIELD[key] in present {
        assert REQUIRED_FIELD[key] != "serial_number" && REQUIRED_FIELD[key] != "im0_serial_number";
      }
      if field :| field in present && field != "serial_number" && field != "im0_serial_number" {
        assert field in present.Keys - {"serial_number", "im0_serial_number"};
      }
    }
  }

  /** No table entry asks for an identity, or the one it asks for is there. */
  ghost predicate IsServed(table: seq<Entry>, fingerprint: Fingerprint, protocol: string) {
    forall i :: 0 <= i < |table| && table[i].protocol == protocol && table[i].key != "" ==>
      Backs(fingerprint, table[i].key)
  }

  lemma {:induction false} ValidExactly(table: seq<Entry>, fingerprint: Fingerprint, protocol: string)
    requires DistinctKeys(table)
    ensures Valid(table, fingerprint, protocol) <==> IsServed(table, fingerprint, protocol)
  {
    if i :| 0 <= i < |table| && table[i].protocol == protocol {
      KeyOfEntry(table, i);
      VendorDataExactly(fingerprint, table[i].key);
    } else {
      NoKey(table, protocol);
    }
  }

  lemma {:induction false} NoKey(table: seq<Entry>, protocol: string)
    requires forall i :: 0 <= i < |table| ==> table[i].protocol != protocol
    ensures KeyOf(table, protocol) == None
  {
    if table != [] {
      assert table[0].protocol != protocol;
      NoKey(table[1..], protocol);
    }
  }

  /** The first entry whose identity the fingerprint has. */
  ghost predicate IsFirstBacked(table: seq<Entry>, fingerprint: Fingerprint, i: int) {
    && 0 <= i < |table| && Backs(fingerprint, table[i].key)
    && forall k :: 0 <= k < i ==> !Backs(fingerprint, table[k].key)
  }

  lemma {:induction false} FirstAvailable(table: seq<Entry>, fingerprint: Fingerprint)
    ensures if exists i :: 0 <= i < |table| && Backs(fingerprint, table[i].key)
            then Available(table, fingerprint) != [] && exists i ::
                   IsFirstBacked(table, fingerprint, i) && table[i].protocol == Available(table, fingerprint)[0]
            else Available(table, fingerprint) == []
  {
    if table != [] {
      var rest := table[1..];
      VendorDataExactly(fingerprint, table[0].key);
      FirstAvailable(rest, fingerprint);
      if Backs(fingerprint, table[0].key) {
        assert IsFirstBacked(table, fingerprint, 0);
      } else if i :| 0 <= i < |table| && Backs(fingerprint, table[i].key) {
        assert rest[i - 1] == table[i];
        var j :| IsFirstBacked(rest, fingerprint, j) && rest[j].protocol == Available(rest, fingerprint)[0];
        assert table[j + 1] == rest[j];
        assert forall k :: 0 < k < j + 1 ==> table[k] == rest[k - 1];
        assert IsFirstBacked(table, fingerprint, j + 1);
      } else {
        assert forall k :: 0 <= k < |rest| ==> rest[k] == table[k + 1];
      }
    }
  }

  /** The fallback: Modbus, unless other identities are there and that of Modbus is not. */
  ghost predicate IsFallback(r: string, table: seq<Entry>, fingerprint: Fingerprint) {
    if (exists i :: 0 <= i < |table| && Backs(fingerprint, table[i].key))
       && (forall i :: 0 <= i < |table| && table[i].protocol == "modbus_tcp" ==> !Backs(fingerprint, table[i].key))
    then exists i :: IsFirstBacked(table, fingerprint, i) && r == table[i].protocol
    else r == "modbus_tcp"
  }

  lemma {:induction false} FallbackExactly(table: seq<Entry>, fingerprint: Fingerprint)
    ensures IsFallback(Fallback(table, fingerprint), table, fingerprint)
  {
    FirstAvailable(table, fingerprint);
    AvailableExactly(table, fingerprint);
    forall i | 0 <= i < |table|
      ensures HasVendorData(fingerprint, table[i].key) <==> Backs(fingerprint, table[i].key)
    {
      VendorDataExactly(fingerprint, table[i].key);
    }
  }

  /** The protocols of the request that can be served, in order. */
  ghost predicate AreServed(r: seq<string>, table: seq<Entry>, protocols: seq<string>, fingerprint: Fingerprint,
                            ks: seq<nat>) {
    && Rising(ks, |protocols|) && |r| == |ks| && (forall m :: 0 <= m < |ks| ==> r[m] == protocols[ks[m]])
    && forall k :: 0 <= k < |protocols| ==> (k in ks <==> IsServed(table, fingerprint, protocols[k]))
  }

  lemma {:induction false} ServedExactly(table: seq<Entry>, protocols: seq<string>, fingerprint: Fingerprint)
    requires DistinctKeys(table)
    ensures exists ks :: AreServed(Keep(IsValid(table, fingerprint), protocols), table, protocols, fingerprint, ks)
    ensures Keep(IsValid(table, fingerprint), protocols) != [] <==>
              exists p <- protocols :: IsServed(table, fingerprint, p)
  {
    var served := Keep(IsValid(table, fingerprint), protocols);
    KeepExactly(IsValid(table, fingerprint), protocols);
    var ks :| Selects(served, protocols, IsValid(table, fingerprint), ks);
    forall k | 0 <= k < |protocols| ensures k in ks <==> IsServed(table, fingerprint, protocols[k]) {
      ValidExactly(table, fingerprint, protocols[k]);
    }
    assert AreServed(served, table, protocols, fingerprint, ks);
    if served != [] {
      assert ks[0] in ks && protocols[ks[0]] in protocols;
    }
    if p :| p in protocols && IsServed(table, fingerprint, p) {
      var k :| 0 <= k < |protocols| && protocols[k] == p;
      assert k in ks;
    }
  }

  /** The result in every case, told from the table and the fields of the fingerprint. */
  lemma {:induction false} FilterExactly(table: seq<Entry>, protocols: seq<string>, fingerprint: Fingerprint)
    requires DistinctKeys(table)
    ensures var r := Filtered(table, protocols, fingerprint);
            if protocols == [] then r == ["modbus_tcp"]
            else if fingerprint == map[] then r == []
            else if exists p <- protocols :: IsServed(table, fingerprint, p)
            then exists ks :: AreServed(r, table, protocols, fingerprint, ks)
            else |r| == 1 && IsFallback(r[0], table, fingerprint)
  {
    ServedExactly(table, protocols, fingerprint);
    FallbackExactly(table, fingerprint);
  }

  /**
    Filtering the result again changes nothing exactly when there is a
    fingerprint and the request was not empty, or the Modbus an empty request
    falls back to is itself what the filter keeps.
   */
  lemma {:induction false} FilterIdempotentExactly(table: seq<Entry>, protocols: seq<string>, fingerprint: Fingerprint)
    requires DistinctKeys(table)
    ensures var r := Filtered(table, protocols, fingerprint);
            Filtered(table, r, fingerprint) == r <==>
              fingerprint != map[]
              && (protocols != [] || Valid(table, fingerprint, "modbus_tcp") || Available(table, fingerprint) == [])
  {
    var r := Filtered(table, protocols, fingerprint);
    if fingerprint != map[] {
      if protocols == [] {
        KeepSnoc(IsValid(table, fingerprint), [], "modbus_tcp");
        assert [] + ["modbus_tcp"] == ["modbus_tcp"];
        if !Valid(table, fingerprint, "modbus_tcp") && "modbus_tcp" in Available(table, fingerprint) {
          AvailableIsValid(table, fingerprint, "modbus_tcp");
        }
      } else {
        var validated := Keep(IsValid(table, fingerprint), protocols);
        if validated != [] {
          KeepSubset(IsValid(table, fingerprint), protocols);
          forall p | p in validated ensures IsValid(table, fingerprint)(p) {
          }
          KeepAll(IsValid(table, fingerprint), validated);
        } else {
          FallbackIsStable(table, fingerprint);
        }
      }
    }
  }

  /** Without a fingerprint nothing is kept, and filtering nothing yields Modbus. */
  lemma {:induction false} NoFingerprintNotIdempotent(table: seq<Entry>, protocol: string)
    ensures Filtered(table, [protocol], map[]) == []
    ensures Filtered(table, Filtered(table, [protocol], map[]), map[]) == ["modbus_tcp"]
  {
  }
}
