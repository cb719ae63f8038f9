/**
 * The asset registry of one product (src/meta.py): a dictionary from a
 * record's signature (`file_name + sep + lib_suffix`) to the record, which
 * only ever grows and never overwrites an entry.
 */
module Meta {
  import opened PyStr
  import opened Optional
  import opened Signals

  /** `MetaRecord`: one tracked file. */
  datatype MetaRecord = MetaRecord(fileName: string, targetDir: string, libSuffix: string)

  /** `MetaDocument.make_signature` */
  function MakeSignature(fileName: string, suffix: string, sep: string): (sig: string)
    ensures sig == fileName + sep + suffix
  {
    JoinPair(fileName, suffix, sep);
    Join([fileName, suffix], sep)
  }

  /** The key a record is registered under. */
  function Signature(rec: MetaRecord, sep: string): string
  {
    MakeSignature(rec.fileName, rec.libSuffix, sep)
  }

  /** The contents of a meta document: Python's insertion-ordered dictionary,
      as the order its keys were first inserted in and the mapping itself. */
  datatype Registry = Registry(keys: seq<string>, records: map<string, MetaRecord>)
  {
    /** The keys are distinct and are exactly the mapping's keys. */
    ghost predicate Valid()
    {
      && (forall i, j :: 0 <= i < j < |keys| ==> keys[i] != keys[j])
      && (forall k :: k in records <==> k in keys)
    }

    /** Every record is stored under its own signature. */
    ghost predicate KeyedBy(sep: string)
    {
      forall k :: k in records ==> Signature(records[k], sep) == k
    }

    /** The effect of `register` on the contents: insert under the record's
        signature unless that signature is already present. */
    function Register(rec: MetaRecord, sep: string): (r: Registry)
      ensures r.records.Keys == records.Keys + {Signature(rec, sep)}
      ensures forall k :: k in records ==> r.records[k] == records[k]
      ensures Signature(rec, sep) !in records ==> r.records[Signature(rec, sep)] == rec
      ensures Valid() ==> r.Valid()
      ensures KeyedBy(sep) ==> r.KeyedBy(sep)
    {
      var k := Signature(rec, sep);
      if k in records then this else Registry(keys + [k], records[k := rec])
    }

    /** What `get_contents` yields, in dictionary order. */
    function Items(): (items: seq<(string, MetaRecord)>)
      requires Valid()
      ensures |items| == |keys|
    {
      seq(|keys|, i requires 0 <= i < |keys| => (keys[i], records[keys[i]]))
    }
  }

  const EmptyRegistry: Registry := Registry([], map[])

  lemma EmptyRegistryValid(sep: string)
    ensures EmptyRegistry.Valid() && EmptyRegistry.KeyedBy(sep)
  {
  }

  /** Registering the records one after another. */
  function RegisterAll(reg: Registry, recs: seq<MetaRecord>, sep: string): Registry
  {
    if recs == [] then reg
    else RegisterAll(reg, recs[..|recs| - 1], sep).Register(recs[|recs| - 1], sep)
  }

  /** The records of a loaded document, whatever keys it stored them under. */
  function Records(data: seq<(string, MetaRecord)>): (recs: seq<MetaRecord>)
    ensures |recs| == |data|
  {
    seq(|data|, i requires 0 <= i < |data| => data[i].1)
  }

  /** Registering the same record twice is registering it once. */
  lemma RegisterIdempotent(reg: Registry, rec: MetaRecord, sep: string)
    ensures reg.Register(rec, sep).Register(rec, sep) == reg.Register(rec, sep)
  {
  }

  /** A registry only ever gains the one key of the record, and a present
      key keeps its record even when the new record differs from it. */
  lemma RegisterNeverOverwrites(reg: Registry, rec: MetaRecord, sep: string)
    requires Signature(rec, sep) in reg.records
    ensures reg.Register(rec, sep) == reg
  {
  }

  /** `i` is the first position among `recs` of a record with signature `k`. */
  predicate FirstWith(recs: seq<MetaRecord>, sep: string, k: string, i: int)
  {
    && 0 <= i < |recs|
    && Signature(recs[i], sep) == k
    && forall j :: 0 <= j < i ==> Signature(recs[j], sep) != k
  }

  /** Registering one more record, as `RegisterAll` unfolds. */
  lemma RegisterAllSnoc(reg: Registry, recs: seq<MetaRecord>, rec: MetaRecord, sep: string)
    ensures RegisterAll(reg, recs + [rec], sep) == RegisterAll(reg, recs, sep).Register(rec, sep)
  {
    assert (recs + [rec])[..|recs|] == recs;
  }

  /** After registering a sequence of records, a key is present exactly when
      it was before or some record has it as signature. */
  lemma {:induction false} RegisterAllKeys(reg: Registry, recs: seq<MetaRecord>, sep: string, k: string)
    ensures k in RegisterAll(reg, recs, sep).records <==>
              k in reg.records || exists i :: 0 <= i < |recs| && Signature(recs[i], sep) == k
    decreases |recs|
  {
    if recs != [] {
      var n := |recs| - 1;
      var init := recs[..n];
      RegisterAllKeys(reg, init, sep, k);
      assert recs == init + [recs[n]];
      RegisterAllSnoc(reg, init, recs[n], sep);
      if exists i :: 0 <= i < |recs| && Signature(recs[i], sep) == k {
        var i :| 0 <= i < |recs| && Signature(recs[i], sep) == k;
        if i < n {
          assert Signature(init[i], sep) == k;
        }
      }
    }
  }

  /** A key present before keeps its record, whatever is registered later. */
  lemma {:induction false} RegisterAllKeepsOld(reg: Registry, recs: seq<MetaRecord>, sep: string, k: string)
    requires k in reg.records
    ensures k in RegisterAll(reg, recs, sep).records
    ensures RegisterAll(reg, recs, sep).records[k] == reg.records[k]
    decreases |recs|
  {
    if recs != [] {
      var n := |recs| - 1;
      RegisterAllKeepsOld(reg, recs[..n], sep, k);
      assert recs == recs[..n] + [recs[n]];
      RegisterAllSnoc(reg, recs[..n], recs[n], sep);
    }
  }

  /** A new key holds the FIRST record with that signature: later duplicates
      never overwrite it. */
  lemma {:induction false} RegisterAllFirstWins(reg: Registry, recs: seq<MetaRecord>, sep: string, k: string)
    requires k !in reg.records && k in RegisterAll(reg, recs, sep).records
    ensures exists i :: FirstWith(recs, sep, k, i) && RegisterAll(reg, recs, sep).records[k] == recs[i]
    decreases |recs|
  {
    var n := |recs| - 1;
    if recs == [] {
      assert false;
    }
    var init := recs[..n];
    assert recs == init + [recs[n]];
    RegisterAllSnoc(reg, init, recs[n], sep);
    var before := RegisterAll(reg, init, sep);
    assert forall i :: 0 <= i < n ==> init[i] == recs[i];
    if k in before.records {
      RegisterAllFirstWins(reg, init, sep, k);
      var i :| FirstWith(init, sep, k, i) && before.records[k] == init[i];
      assert FirstWith(recs, sep, k, i);
    } else {
      RegisterAllKeys(reg, init, sep, k);
      assert Signature(recs[n], sep) == k;
      forall j | 0 <= j < n ensures Signature(recs[j], sep) != k {
        assert init[j] == recs[j];
      }
      assert FirstWith(recs, sep, k, n);
    }
  }

  lemma {:induction false} RegisterAllValid(reg: Registry, recs: seq<MetaRecord>, sep: string)
    requires reg.Valid() && reg.KeyedBy(sep)
    ensures RegisterAll(reg, recs, sep).Valid() && RegisterAll(reg, recs, sep).KeyedBy(sep)
    decreases |recs|
  {
    if recs != [] {
      RegisterAllValid(reg, recs[..|recs| - 1], sep);
    }
  }

  /** `get_contents` yields every stored pair, each exactly once. */
  lemma ItemsExactlyOnce(reg: Registry)
    requires reg.Valid()
    ensures forall k :: k in reg.records ==> exists i :: 0 <= i < |reg.Items()| && reg.Items()[i] == (k, reg.records[k])
    ensures forall i :: 0 <= i < |reg.Items()| ==> reg.Items()[i].0 in reg.records && reg.Items()[i].1 == reg.records[reg.Items()[i].0]
    ensures forall i, j :: 0 <= i < j < |reg.Items()| ==> reg.Items()[i].0 != reg.Items()[j].0
  {
    forall k | k in reg.records
      ensures exists i :: 0 <= i < |reg.Items()| && reg.Items()[i] == (k, reg.records[k])
    {
      var i :| 0 <= i < |reg.keys| && reg.keys[i] == k;
      assert reg.Items()[i] == (k, reg.records[k]);
    }
  }

  /** `MetaDocument`: the registry of one product and where it is stored. */
  class MetaDocument {
    const recordIdSep: string
    const productCode: string
    const dataDirPath: string
    const metaDirName: string
    const dataFileSuffix: string
    const metaDirPath: string
    var contents: Registry

    ghost predicate Valid()
      reads this
    {
      contents.Valid() && contents.KeyedBy(recordIdSep)
    }

    constructor (productCode: string, dataDirPath: string, metaDirName: string,
                 dataFileSuffix: string, recordIdSep: string)
      ensures this.productCode == Strip(Lower(productCode))
      ensures this.dataDirPath == dataDirPath && this.metaDirName == metaDirName
      ensures this.dataFileSuffix == dataFileSuffix && this.recordIdSep == recordIdSep
      ensures metaDirPath == dataDirPath + "/" + metaDirName
      ensures contents == EmptyRegistry
      ensures Valid()
    {
      this.recordIdSep := recordIdSep;
      this.productCode := Strip(Lower(productCode));
      this.dataDirPath := dataDirPath;
      this.metaDirName := metaDirName;
      this.dataFileSuffix := dataFileSuffix;
      this.metaDirPath := dataDirPath + "/" + metaDirName;
      contents := EmptyRegistry;
      EmptyRegistryValid(recordIdSep);
    }

    /** The file `read` loads and `save` writes. */
    function DataFilePath(): (path: string)
      ensures path == metaDirPath + "/" + productCode + "." + dataFileSuffix
    {
      JoinPair(productCode, dataFileSuffix, ".");
      JoinPair(metaDirPath, productCode + "." + dataFileSuffix, "/");
      Join([metaDirPath, Join([productCode, dataFileSuffix], ".")], "/")
    }

    /** `register`: `None` when the record was added, `Failed` when its
        signature was already present (and nothing changed). */
    method Register(rec: MetaRecord) returns (status: Option<RecordRegister>)
      requires Valid()
      modifies this
      ensures Valid()
      ensures contents == old(contents).Register(rec, recordIdSep)
      ensures status == if Signature(rec, recordIdSep) in old(contents.records)
                        then Some(RegisterFailed) else None
    {
      status := None;
      var signature := MakeSignature(rec.fileName, rec.libSuffix, recordIdSep);
      var newRecord := MetaRecord(rec.fileName, rec.targetDir, rec.libSuffix);
      if signature !in contents.records {
        contents := Registry(contents.keys + [signature], contents.records[signature := newRecord]);
      } else {
        status := Some(RegisterFailed);
      }
    }

    /** `read`, given the loaded document's (key, record) pairs in file order:
        every record is registered again under its recomputed signature. */
    method Read(data: seq<(string, MetaRecord)>) returns (status: MetaDocumentLoad)
      requires Valid()
      modifies this
      ensures Valid()
      ensures contents == RegisterAll(old(contents), Records(data), recordIdSep)
      ensures status == if contents.records != map[] then LoadOk else LoadFailed
    {
      var recs := Records(data);
      var i := 0;
      while i < |data|
        invariant 0 <= i <= |data|
        invariant Valid()
        invariant contents == RegisterAll(old(contents), recs[..i], recordIdSep)
      {
        var record := data[i].1;
        assert recs[..i + 1] == recs[..i] + [record];
        RegisterAllSnoc(old(contents), recs[..i], record, recordIdSep);
        var _ := Register(MetaRecord(record.fileName, record.targetDir, record.libSuffix));
        i := i + 1;
      }
      assert recs[..|data|] == recs;
      if contents.records != map[] {
        status := LoadOk;
      } else {
        status := LoadFailed;
      }
    }

    /** `get_contents` */
    method GetContents() returns (items: seq<(string, MetaRecord)>)
      requires Valid()
      ensures items == contents.Items()
    {
      items := [];
      var i := 0;
      while i < |contents.keys|
        invariant 0 <= i <= |contents.keys|
        invariant items == contents.Items()[..i]
      {
        var k := contents.keys[i];
        items := items + [(k, contents.records[k])];
        i := i + 1;
      }
    }

    /** `save`: the whole mapping is written to the data file. */
    method Save() returns (path: string, written: Registry)
      ensures path == metaDirPath + "/" + productCode + "." + dataFileSuffix
      ensures written == contents
    {
      path := DataFilePath();
      written := contents;
    }
  }
}
