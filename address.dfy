/**
 * `AddressBR`: a Brazilian postal address attached to any object through a
 * generic association, its watched fields, its one-line rendering and its
 * dictionary projection.
 */
module Addresses {
  import opened Wrappers
  import opened Values
  import opened History
  import opened ChangeTracking

  /** The eleven nullable text columns, then the generic association. */
  datatype AddressBR = AddressBR(
    cep: Option<string>,
    logradouro: Option<string>,
    numero: Option<string>,
    bairro: Option<string>,
    localidade: Option<string>,
    uf: Option<string>,
    inscricaoEstadual: Option<string>,
    inscricaoMunicipal: Option<string>,
    codigoMunicipio: Option<string>,
    complemento: Option<string>,
    observacao: Option<string>,
    subject: GenericRef)

  /** `AddressBR._fields_to_watch()`: the eleven text columns. */
  function WatchedFields(): (w: seq<string>)
    ensures |w| == 11
  {
    ["cep", "logradouro", "numero", "bairro", "localidade", "uf",
     "inscricao_estadual", "inscricao_municipal", "codigo_municipio",
     "complemento", "observacao"]
  }

  /** No column is watched twice, so each change yields one clause. */
  lemma WatchedFieldsDistinct()
    ensures forall i, j :: 0 <= i < j < |WatchedFields()| ==> WatchedFields()[i] != WatchedFields()[j]
  {
  }

  /** Python truthiness of a nullable string: `None` and `""` are false. */
  predicate Truthy(o: Option<string>) {
    o.Some? && o.value != ""
  }

  /** One `if field: full_address += ...` step: the field between `open`
      and `close` when it is truthy, nothing otherwise. */
  function Segment(o: Option<string>, open: string, close: string): (s: string)
    ensures Truthy(o) ==> |s| > |close| && s[|s| - |close|..] == close
    ensures !Truthy(o) ==> s == ""
  {
    if Truthy(o) then open + o.value + close else ""
  }

  /** `full_address`: logradouro, then `", "` and numero, bairro and
      localidade, `" - "` and uf, and `" (...)"` around complemento, each
      only when truthy. */
  function FullAddress(a: AddressBR): (r: string)
    ensures r == "" <==> !Truthy(a.logradouro) && !Truthy(a.numero) && !Truthy(a.bairro)
                         && !Truthy(a.localidade) && !Truthy(a.uf) && !Truthy(a.complemento)
    ensures Truthy(a.logradouro) ==> |a.logradouro.value| <= |r| && r[..|a.logradouro.value|] == a.logradouro.value
    ensures Truthy(a.complemento) ==>
      var tail := " (" + a.complemento.value + ")";
      |tail| <= |r| && r[|r| - |tail|..] == tail
  {
    var head := Segment(a.logradouro, "", "");
    var middle := Segment(a.numero, ", ", "") + Segment(a.bairro, ", ", "")
                  + Segment(a.localidade, ", ", "") + Segment(a.uf, " - ", "");
    var tail := Segment(a.complemento, " (", ")");
    ConcatEnds(head, middle, tail);
    head + middle + tail
  }

  /** A concatenation of three strings starts with the first and ends with
      the last. */
  lemma ConcatEnds(head: string, middle: string, tail: string)
    ensures |head + middle + tail| == |head| + |middle| + |tail|
    ensures (head + middle + tail)[..|head|] == head
    ensures (head + middle + tail)[|head| + |middle|..] == tail
  {
  }

  /** The rendering reads only the six address-line fields, and a field set
      to `""` renders as one left null. */
  lemma FullAddressReadsAddressLine(a: AddressBR, b: AddressBR)
    requires Truthy(a.logradouro) == Truthy(b.logradouro) && (Truthy(a.logradouro) ==> a.logradouro == b.logradouro)
    requires Truthy(a.numero) == Truthy(b.numero) && (Truthy(a.numero) ==> a.numero == b.numero)
    requires Truthy(a.bairro) == Truthy(b.bairro) && (Truthy(a.bairro) ==> a.bairro == b.bairro)
    requires Truthy(a.localidade) == Truthy(b.localidade) && (Truthy(a.localidade) ==> a.localidade == b.localidade)
    requires Truthy(a.uf) == Truthy(b.uf) && (Truthy(a.uf) ==> a.uf == b.uf)
    requires Truthy(a.complemento) == Truthy(b.complemento) && (Truthy(a.complemento) ==> a.complemento == b.complemento)
    ensures FullAddress(a) == FullAddress(b)
  {
  }

  /** A fully filled address line, written out. */
  lemma FullAddressAllParts(a: AddressBR, l: string, n: string, b: string, c: string, u: string, k: string)
    requires a.logradouro == Some(l) && a.numero == Some(n) && a.bairro == Some(b)
    requires a.localidade == Some(c) && a.uf == Some(u) && a.complemento == Some(k)
    requires l != "" && n != "" && b != "" && c != "" && u != "" && k != ""
    ensures FullAddress(a) == l + ", " + n + ", " + b + ", " + c + " - " + u + " (" + k + ")"
  {
  }

  /** `as_dict()`: the eleven watched columns keyed by their names. */
  function AsDict(a: AddressBR): (d: map<string, Option<string>>)
    ensures d.Keys == set f | f in WatchedFields()
  {
    map["cep" := a.cep, "logradouro" := a.logradouro, "numero" := a.numero, "bairro" := a.bairro,
        "localidade" := a.localidade, "uf" := a.uf, "inscricao_estadual" := a.inscricaoEstadual,
        "inscricao_municipal" := a.inscricaoMunicipal, "codigo_municipio" := a.codigoMunicipio,
        "complemento" := a.complemento, "observacao" := a.observacao]
  }

  /** Two addresses have the same dictionary exactly when they agree on
      every column but the generic association. */
  lemma AsDictDeterminesColumns(a: AddressBR, b: AddressBR)
    ensures AsDict(a) == AsDict(b) <==> a.(subject := b.subject) == b
  {
    if AsDict(a) == AsDict(b) {
      AsDictAddressLine(a, b);
      AsDictRegistration(a, b);
    }
  }

  /** Equal dictionaries agree on the cep and the address-line columns. */
  lemma AsDictAddressLine(a: AddressBR, b: AddressBR)
    requires AsDict(a) == AsDict(b)
    ensures a.cep == b.cep && a.logradouro == b.logradouro && a.numero == b.numero
    ensures a.bairro == b.bairro && a.localidade == b.localidade && a.uf == b.uf
  {
    assert AsDict(a)["cep"] == AsDict(b)["cep"];
    assert AsDict(a)["logradouro"] == AsDict(b)["logradouro"];
    assert AsDict(a)["numero"] == AsDict(b)["numero"];
    assert AsDict(a)["bairro"] == AsDict(b)["bairro"];
    assert AsDict(a)["localidade"] == AsDict(b)["localidade"];
    assert AsDict(a)["uf"] == AsDict(b)["uf"];
  }

  /** Equal dictionaries agree on the registration columns, complemento and
      observacao. */
  lemma AsDictRegistration(a: AddressBR, b: AddressBR)
    requires AsDict(a) == AsDict(b)
    ensures a.inscricaoEstadual == b.inscricaoEstadual && a.inscricaoMunicipal == b.inscricaoMunicipal
    ensures a.codigoMunicipio == b.codigoMunicipio && a.complemento == b.complemento
    ensures a.observacao == b.observacao
  {
    assert AsDict(a)["inscricao_estadual"] == AsDict(b)["inscricao_estadual"];
    assert AsDict(a)["inscricao_municipal"] == AsDict(b)["inscricao_municipal"];
    assert AsDict(a)["codigo_municipio"] == AsDict(b)["codigo_municipio"];
    assert AsDict(a)["complemento"] == AsDict(b)["complemento"];
    assert AsDict(a)["observacao"] == AsDict(b)["observacao"];
  }

  /** A nullable text column as an attribute value. */
  function ColumnValue(o: Option<string>): (v: Value)
    ensures v == Null <==> o.None?
  {
    match o
    case None => Null
    case Some(s) => Str(s)
  }

  /** The watched attributes of an address, as the change tracker reads them. */
  function Attrs(a: AddressBR): (m: map<string, Value>)
    ensures Covers(WatchedFields(), m)
    ensures forall f :: f in m ==> f in AsDict(a) && m[f] == ColumnValue(AsDict(a)[f])
  {
    var d := AsDict(a);
    map f | f in d :: ColumnValue(d[f])
  }

  /** The diff message of an edited address is empty exactly when no column
      but the generic association changed. */
  lemma AddressMessageEmptyIff(before: AddressBR, after: AddressBR)
    ensures Message(WatchedFields(), Attrs(before), Attrs(after)) == "" <==> before.(subject := after.subject) == after
  {
    var m := Message(WatchedFields(), Attrs(before), Attrs(after));
    if m == "" {
      forall f | f in WatchedFields()
        ensures AsDict(before)[f] == AsDict(after)[f]
      {
        assert Attrs(before)[f] == Attrs(after)[f];
      }
      assert AsDict(before) == AsDict(after);
      AsDictDeterminesColumns(before, after);
    } else if before.(subject := after.subject) == after {
      assert false;
    }
  }
}
