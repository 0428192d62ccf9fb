/** Pure reference definitions for the patient registry: the patient record,
    the error outcomes of the registry's operations, and each operation as a
    function on the sequence of patients, with the lemmas that say what those
    functions mean. The class in central.dfy is proved against them. */
module ListaPacientes {

  /** A patient as the registry sees it: its code (the identity key), its sex
      ('M' or 'F') and the name of its clinic. */
  datatype Paciente = Paciente(codigo: int, sexo: char, clinica: string)

  datatype Option<T> = None | Some(value: T)

  /** The three exceptions the registry raises: NullPointerException for an
      absent patient, IllegalArgumentException for a repeated code and
      NoExisteException for a code that is not in the list. */
  datatype Error = PacienteNulo | CodigoRepetido | NoExiste

  datatype Result<T> = Ok(value: T) | Err(error: Error)

  /** How an operation that returns nothing ended: normally, or with an error. */
  datatype Salida = Exito | Falla(error: Error)

  /** Some patient in `s` has code `cod`. */
  predicate Contiene(s: seq<Paciente>, cod: int)
  {
    exists i :: 0 <= i < |s| && s[i].codigo == cod
  }

  /** No two patients in `s` share a code: the registry's invariant. */
  predicate CodigosUnicos(s: seq<Paciente>)
  {
    forall i, j :: 0 <= i < j < |s| ==> s[i].codigo != s[j].codigo
  }

  /** The position of the first patient with code `cod`, scanning from the head. */
  function Indice(s: seq<Paciente>, cod: int): (r: Option<nat>)
    ensures r.None? <==> !Contiene(s, cod)
    ensures r.Some? ==> r.value < |s| && s[r.value].codigo == cod
    ensures r.Some? ==> forall j :: 0 <= j < r.value ==> s[j].codigo != cod
  {
    if s == [] then None
    else if s[0].codigo == cod then Some(0)
    else match Indice(s[1..], cod)
      case None => None
      case Some(k) => Some(k + 1)
  }

  /** The patient with code `cod`, or None (the source's null). */
  function Localizado(s: seq<Paciente>, cod: int): (r: Option<Paciente>)
    ensures r.None? <==> !Contiene(s, cod)
    ensures r.Some? ==> r.value in s && r.value.codigo == cod
  {
    match Indice(s, cod)
    case None => None
    case Some(i) => Some(s[i])
  }

  /** The checks every insertion makes before it changes anything:
      first that there is a patient, then that its code is new. */
  function Validar(s: seq<Paciente>, pac: Option<Paciente>): (r: Result<Paciente>)
    ensures r.Ok? <==> pac.Some? && !Contiene(s, pac.value.codigo)
    ensures r.Ok? ==> r.value == pac.value
    ensures r.Err? ==> r.error == (if pac.None? then PacienteNulo else CodigoRepetido)
  {
    if pac.None? then Err(PacienteNulo)
    else if Contiene(s, pac.value.codigo) then Err(CodigoRepetido)
    else Ok(pac.value)
  }

  /** Insert at the head. */
  function AgregarAlComienzo(s: seq<Paciente>, pac: Option<Paciente>): (r: Result<seq<Paciente>>)
    ensures r.Err? <==> Validar(s, pac).Err?
    ensures r.Err? ==> r.error != NoExiste
    ensures r.Ok? ==> |r.value| == |s| + 1 && r.value[0] == pac.value && r.value[1..] == s
  {
    match Validar(s, pac)
    case Err(e) => Err(e)
    case Ok(p) => Ok([p] + s)
  }

  /** Insert at the tail. */
  function AgregarAlFinal(s: seq<Paciente>, pac: Option<Paciente>): (r: Result<seq<Paciente>>)
    ensures r.Err? <==> Validar(s, pac).Err?
    ensures r.Err? ==> r.error != NoExiste
    ensures r.Ok? ==> |r.value| == |s| + 1 && r.value[|s|] == pac.value && r.value[..|s|] == s
  {
    match Validar(s, pac)
    case Err(e) => Err(e)
    case Ok(p) => Ok(s + [p])
  }

  /** Insert just before the patient with code `cod`; the patient is
      validated before the reference is looked up. */
  function AgregarAntesDe(s: seq<Paciente>, cod: int, pac: Option<Paciente>): (r: Result<seq<Paciente>>)
    ensures r.Err? && r.error == NoExiste <==> Validar(s, pac).Ok? && !Contiene(s, cod)
    ensures r.Ok? ==> pac.Some? && Contiene(s, cod) && |r.value| == |s| + 1
    ensures r.Ok? ==> r.value[Indice(s, cod).value] == pac.value
  {
    match Validar(s, pac)
    case Err(e) => Err(e)
    case Ok(p) =>
      match Indice(s, cod)
      case None => Err(NoExiste)
      case Some(i) => Ok(s[..i] + [p] + s[i..])
  }

  /** Insert just after the patient with code `cod`. */
  function AgregarDespuesDe(s: seq<Paciente>, cod: int, pac: Option<Paciente>): (r: Result<seq<Paciente>>)
    ensures r.Err? && r.error == NoExiste <==> Validar(s, pac).Ok? && !Contiene(s, cod)
    ensures r.Ok? ==> pac.Some? && Contiene(s, cod) && |r.value| == |s| + 1
    ensures r.Ok? ==> r.value[Indice(s, cod).value + 1] == pac.value
  {
    match Validar(s, pac)
    case Err(e) => Err(e)
    case Ok(p) =>
      match Indice(s, cod)
      case None => Err(NoExiste)
      case Some(i) => Ok(s[..i + 1] + [p] + s[i + 1..])
  }

  /** Remove the first patient with code `cod`. */
  function Eliminar(s: seq<Paciente>, cod: int): (r: Result<seq<Paciente>>)
    ensures r.Err? <==> !Contiene(s, cod)
    ensures r.Err? ==> r.error == NoExiste
    ensures r.Ok? ==> |r.value| == |s| - 1
  {
    match Indice(s, cod)
    case None => Err(NoExiste)
    case Some(i) => Ok(s[..i] + s[i + 1..])
  }

  /** Number of patients in `s` whose sex is `sexo`. */
  function CuentaSexo(s: seq<Paciente>, sexo: char): (n: nat)
    ensures n <= |s|
    ensures s == [] ==> n == 0
  {
    if s == [] then 0
    else CuentaSexo(s[..|s| - 1], sexo) + (if s[|s| - 1].sexo == sexo then 1 else 0)
  }

  /** Number of patients in `s` attended at clinic `nombre`. */
  function CuentaClinica(s: seq<Paciente>, nombre: string): (n: nat)
    ensures n <= |s|
    ensures s == [] ==> n == 0
  {
    if s == [] then 0
    else CuentaClinica(s[..|s| - 1], nombre) + (if s[|s| - 1].clinica == nombre then 1 else 0)
  }

  /** The number of patients of each clinic of `clinicas`, in catalogue order. */
  function Conteos(s: seq<Paciente>, clinicas: seq<string>): (c: seq<nat>)
    ensures |c| == |clinicas|
    ensures forall i :: 0 <= i < |c| ==> c[i] <= |s|
  {
    seq(|clinicas|, i requires 0 <= i < |clinicas| => CuentaClinica(s, clinicas[i]))
  }

  /** The position of the first largest count, found by a left-to-right scan
      that only moves on a strictly larger count. */
  function PrimerMaximo(c: seq<nat>): (k: nat)
    requires |c| > 0
    ensures k < |c|
    ensures forall j :: 0 <= j < |c| ==> c[j] <= c[k]
    ensures forall j :: 0 <= j < k ==> c[j] < c[k]
  {
    if |c| == 1 then 0
    else
      var k := PrimerMaximo(c[..|c| - 1]);
      if c[|c| - 1] > c[k] then |c| - 1 else k
  }

  /** The position of `x` in `l`, or -1 (the library's indexOf). */
  function PosicionDe(l: seq<string>, x: string): (r: int)
    ensures r == -1 <==> x !in l
    ensures r != -1 ==> 0 <= r < |l| && l[r] == x
    ensures r != -1 ==> forall j :: 0 <= j < r ==> l[j] != x
  {
    if l == [] then -1
    else if l[0] == x then 0
    else
      var k := PosicionDe(l[1..], x);
      if k == -1 then -1 else k + 1
  }

  predicate Distintas(l: seq<string>)
  {
    forall i, j :: 0 <= i < j < |l| ==> l[i] != l[j]
  }

  // ---------------------------------------------------------------------
  // Lemmas
  // ---------------------------------------------------------------------

  /** Under the invariant, the code of the patient at `k` is found at `k`. */
  lemma IndiceDe(s: seq<Paciente>, k: nat)
    requires CodigosUnicos(s) && k < |s|
    ensures Indice(s, s[k].codigo) == Some(k)
  {
  }

  /** Splicing a patient with a new code in at `k` keeps the codes distinct,
      puts the patient at `k`, and removing it again gives back `s`. */
  lemma Insertar(s: seq<Paciente>, k: nat, p: Paciente)
    requires CodigosUnicos(s) && !Contiene(s, p.codigo) && k <= |s|
    ensures var t := s[..k] + [p] + s[k..];
      |t| == |s| + 1 && t[k] == p && CodigosUnicos(t) && Eliminar(t, p.codigo) == Ok(s)
  {
    var t := s[..k] + [p] + s[k..];
    forall i, j | 0 <= i < j < |t|
      ensures t[i].codigo != t[j].codigo
    {
      if i == k {
        assert t[j] == s[j - 1];
      } else if j == k {
        assert t[i] == s[i];
      } else {
        var i', j' := if i < k then i else i - 1, if j < k then j else j - 1;
        assert t[i] == s[i'] && t[j] == s[j'];
      }
    }
    IndiceDe(t, k);
    assert t[..k] + t[k + 1..] == s;
  }

  /** The four insertions fail on an absent patient, then on a repeated code,
      and the repeated code is reported even when the reference is missing. */
  lemma AgregarRechazado(s: seq<Paciente>, cod: int, pac: Option<Paciente>)
    requires pac.None? || Contiene(s, pac.value.codigo)
    ensures var e := if pac.None? then PacienteNulo else CodigoRepetido;
      AgregarAlComienzo(s, pac) == Err(e) && AgregarAlFinal(s, pac) == Err(e) &&
      AgregarAntesDe(s, cod, pac) == Err(e) && AgregarDespuesDe(s, cod, pac) == Err(e)
  {
  }

  lemma AgregarAlComienzoCorrecto(s: seq<Paciente>, pac: Option<Paciente>)
    requires CodigosUnicos(s)
    ensures AgregarAlComienzo(s, pac).Ok? <==> pac.Some? && !Contiene(s, pac.value.codigo)
    ensures AgregarAlComienzo(s, pac).Ok? ==>
      var t := AgregarAlComienzo(s, pac).value;
      |t| == |s| + 1 && t[0] == pac.value && t[1..] == s &&
      CodigosUnicos(t) && Eliminar(t, pac.value.codigo) == Ok(s) &&
      Localizado(t, pac.value.codigo) == pac
  {
    if pac.Some? && !Contiene(s, pac.value.codigo) {
      Insertar(s, 0, pac.value);
      assert s[..0] + [pac.value] + s[0..] == [pac.value] + s;
    }
  }

  lemma AgregarAlFinalCorrecto(s: seq<Paciente>, pac: Option<Paciente>)
    requires CodigosUnicos(s)
    ensures AgregarAlFinal(s, pac).Ok? <==> pac.Some? && !Contiene(s, pac.value.codigo)
    ensures AgregarAlFinal(s, pac).Ok? ==>
      var t := AgregarAlFinal(s, pac).value;
      |t| == |s| + 1 && t[|s|] == pac.value && t[..|s|] == s &&
      CodigosUnicos(t) && Eliminar(t, pac.value.codigo) == Ok(s) &&
      Localizado(t, pac.value.codigo) == pac
  {
    if pac.Some? && !Contiene(s, pac.value.codigo) {
      Insertar(s, |s|, pac.value);
      assert s[..|s|] + [pac.value] + s[|s|..] == s + [pac.value];
    }
  }

  /** A successful insertion before the reference leaves the new patient
      immediately before it; taking the new patient out restores the list. */
  lemma AgregarAntesDeCorrecto(s: seq<Paciente>, cod: int, pac: Option<Paciente>)
    requires CodigosUnicos(s)
    ensures AgregarAntesDe(s, cod, pac).Ok? <==>
      pac.Some? && !Contiene(s, pac.value.codigo) && Contiene(s, cod)
    ensures AgregarAntesDe(s, cod, pac).Ok? ==>
      var t, i := AgregarAntesDe(s, cod, pac).value, Indice(s, cod).value;
      |t| == |s| + 1 && s[i].codigo == cod && t[i] == pac.value && t[i + 1] == s[i] &&
      CodigosUnicos(t) && Eliminar(t, pac.value.codigo) == Ok(s) &&
      Localizado(t, pac.value.codigo) == pac
  {
    if pac.Some? && !Contiene(s, pac.value.codigo) && Contiene(s, cod) {
      var i := Indice(s, cod).value;
      Insertar(s, i, pac.value);
    }
  }

  /** A successful insertion after the reference leaves the new patient
      immediately after it; taking the new patient out restores the list. */
  lemma AgregarDespuesDeCorrecto(s: seq<Paciente>, cod: int, pac: Option<Paciente>)
    requires CodigosUnicos(s)
    ensures AgregarDespuesDe(s, cod, pac).Ok? <==>
      pac.Some? && !Contiene(s, pac.value.codigo) && Contiene(s, cod)
    ensures AgregarDespuesDe(s, cod, pac).Ok? ==>
      var t, i := AgregarDespuesDe(s, cod, pac).value, Indice(s, cod).value;
      |t| == |s| + 1 && s[i].codigo == cod && t[i] == s[i] && t[i + 1] == pac.value &&
      CodigosUnicos(t) && Eliminar(t, pac.value.codigo) == Ok(s) &&
      Localizado(t, pac.value.codigo) == pac
  {
    if pac.Some? && !Contiene(s, pac.value.codigo) && Contiene(s, cod) {
      var i := Indice(s, cod).value;
      Insertar(s, i + 1, pac.value);
    }
  }

  /** Taking out the patient at `i` shifts the later ones down by one,
      keeps the codes distinct and leaves no patient with the removed code. */
  lemma QuitarConservaUnicos(s: seq<Paciente>, i: nat)
    requires CodigosUnicos(s) && i < |s|
    ensures var t := s[..i] + s[i + 1..];
      |t| == |s| - 1 && CodigosUnicos(t) && !Contiene(t, s[i].codigo)
  {
    var t := s[..i] + s[i + 1..];
    assert forall j :: 0 <= j < |t| ==> t[j] == (if j < i then s[j] else s[j + 1]);
  }

  /** Putting the removed patient back before its old successor (or at the
      end when it was last) restores the list. */
  lemma Quitar(s: seq<Paciente>, i: nat)
    requires CodigosUnicos(s) && i < |s|
    ensures var t := s[..i] + s[i + 1..];
      |t| == |s| - 1 && CodigosUnicos(t) && !Contiene(t, s[i].codigo) &&
      (if i + 1 < |s| then AgregarAntesDe(t, s[i + 1].codigo, Some(s[i]))
       else AgregarAlFinal(t, Some(s[i]))) == Ok(s)
  {
    var t := s[..i] + s[i + 1..];
    QuitarConservaUnicos(s, i);
    assert Validar(t, Some(s[i])) == Ok(s[i]);
    if i + 1 < |s| {
      assert t[i] == s[i + 1];
      IndiceDe(t, i);
      assert t[..i] + [s[i]] + t[i..] == s;
    } else {
      assert t + [s[i]] == s;
    }
  }

  /** Removal fails exactly on a missing code; otherwise the list is one
      shorter, the code is gone, and putting the removed patient back where
      it was (before its old successor, or at the end) restores the list. */
  lemma EliminarCorrecto(s: seq<Paciente>, cod: int)
    requires CodigosUnicos(s)
    ensures Eliminar(s, cod).Err? <==> !Contiene(s, cod)
    ensures Eliminar(s, cod).Err? ==> Eliminar(s, cod).error == NoExiste
    ensures Eliminar(s, cod).Ok? ==>
      var t, i := Eliminar(s, cod).value, Indice(s, cod).value;
      |t| == |s| - 1 && CodigosUnicos(t) && Localizado(t, cod) == None &&
      (if i + 1 < |s| then AgregarAntesDe(t, s[i + 1].codigo, Some(s[i]))
       else AgregarAlFinal(t, Some(s[i]))) == Ok(s)
  {
    if Contiene(s, cod) {
      Quitar(s, Indice(s, cod).value);
    }
  }

  /** Each patient is counted at most once between the two sexes, and
      exactly once when every sex is 'M' or 'F'. */
  lemma {:induction false} CuentaSexoCorrecta(s: seq<Paciente>)
    ensures CuentaSexo(s, 'M') + CuentaSexo(s, 'F') <= |s|
    ensures (forall i :: 0 <= i < |s| ==> s[i].sexo == 'M' || s[i].sexo == 'F') ==>
      CuentaSexo(s, 'M') + CuentaSexo(s, 'F') == |s|
  {
    if s != [] {
      var s' := s[..|s| - 1];
      CuentaSexoCorrecta(s');
      assert forall i :: 0 <= i < |s'| ==> s'[i] == s[i];
    }
  }

  /** Extending a prefix by one patient adds one to that patient's clinic
      and nothing to any other. */
  lemma CuentaClinicaPaso(s: seq<Paciente>, k: nat)
    requires k < |s|
    ensures forall nombre :: (CuentaClinica(s[..k + 1], nombre) ==
      CuentaClinica(s[..k], nombre) + (if s[k].clinica == nombre then 1 else 0))
  {
    assert s[..k + 1][..k] == s[..k];
  }

  /** With no patients, or none at any listed clinic, the busiest clinic is
      the first of the catalogue. */
  lemma MasOcupadaSinPacientes(s: seq<Paciente>, clinicas: seq<string>)
    requires |clinicas| > 0
    requires forall i :: 0 <= i < |clinicas| ==> CuentaClinica(s, clinicas[i]) == 0
    ensures PrimerMaximo(Conteos(s, clinicas)) == 0
  {
    var c := Conteos(s, clinicas);
    assert c[0] == 0;
  }
}
