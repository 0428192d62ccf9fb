/** The patient registry itself: a class whose list of patients the
    operations change in place, proved against the reference functions of
    ListaPacientes. */
module Central {
  import opened ListaPacientes

  /** The clinics the registry is built with, in catalogue order; the last
      one is the catch-all for any other clinic. */
  const ClinicasPredefinidas: seq<string> :=
    ["clínicas del Country", "clínicas Palermo", "clínicas Reina Sofía",
     "clínicas El Bosque", "clínicas San Ignacio", "Otra"]

  lemma ClinicasPredefinidasDistintas()
    ensures Distintas(ClinicasPredefinidas)
  {
  }

  class CentralPacientes {
    /** The patients, in the order the callers chose. */
    var pacientes: seq<Paciente>
    /** The clinics, fixed once the registry is built. */
    const listaClinicas: seq<string>

    /** The registry's invariant: patient codes are pairwise distinct, and
        the clinic list is the predefined catalogue. */
    ghost predicate Valid()
      reads this
    {
      CodigosUnicos(pacientes) && listaClinicas == ClinicasPredefinidas
    }

    /** An empty registry with the predefined clinics. */
    constructor ()
      ensures Valid()
      ensures pacientes == [] && |listaClinicas| == 6 && listaClinicas[5] == "Otra"
    {
      pacientes := [];
      listaClinicas := ClinicasPredefinidas;
    }

    /** The number of patients; it bounds the two counts by sex together. */
    function DarNumeroPacientes(): (n: nat)
      reads this
      ensures n == |pacientes|
      ensures CuentaSexo(pacientes, 'M') + CuentaSexo(pacientes, 'F') <= n
    {
      CuentaSexoCorrecta(pacientes);
      |pacientes|
    }

    /** A read-only view of the patients, in their current order. */
    function DarPacientes(): (r: seq<Paciente>)
      reads this
      requires Valid()
      ensures r == pacientes && CodigosUnicos(r)
    {
      pacientes
    }

    /** The clinic catalogue: six distinct names, the last being "Otra". */
    function DarListaClinicas(): (r: seq<string>)
      reads this
      requires Valid()
      ensures r == listaClinicas && |r| == 6 && r[5] == "Otra" && Distintas(r)
    {
      ClinicasPredefinidasDistintas();
      listaClinicas
    }

    /** The duplicate check every insertion runs: a scan that stops at the
        first patient with code `cod`. */
    method ExisteCodigo(cod: int) returns (existe: bool)
      ensures existe <==> Contiene(pacientes, cod)
    {
      for i := 0 to |pacientes|
        invariant forall j :: 0 <= j < i ==> pacientes[j].codigo != cod
      {
        if pacientes[i].codigo == cod {
          return true;
        }
      }
      return false;
    }

    /** The position of the first patient with code `cod`, or NoExiste. */
    method BuscarIndice(cod: int) returns (r: Result<nat>)
      ensures match Indice(pacientes, cod)
        case None => r == Err(NoExiste)
        case Some(i) => r == Ok(i)
      ensures r.Err? <==> !Contiene(pacientes, cod)
      ensures r.Ok? ==> r.value < |pacientes| && pacientes[r.value].codigo == cod
      ensures r.Ok? ==> forall j :: 0 <= j < r.value ==> pacientes[j].codigo != cod
    {
      for i := 0 to |pacientes|
        invariant forall j :: 0 <= j < i ==> pacientes[j].codigo != cod
      {
        if pacientes[i].codigo == cod {
          return Ok(i);
        }
      }
      return Err(NoExiste);
    }

    method AgregarPacienteAlComienzo(pac: Option<Paciente>) returns (r: Salida)
      requires Valid()
      modifies this
      ensures Valid()
      ensures match AgregarAlComienzo(old(pacientes), pac)
        case Ok(t) => r == Exito && pacientes == t
        case Err(e) => r == Falla(e) && pacientes == old(pacientes)
    {
      if pac.None? {
        return Falla(PacienteNulo);
      }
      var existe := ExisteCodigo(pac.value.codigo);
      if existe {
        return Falla(CodigoRepetido);
      }
      AgregarAlComienzoCorrecto(pacientes, pac);
      pacientes := [pac.value] + pacientes;
      r := Exito;
    }

    method AgregarPacienteAlFinal(pac: Option<Paciente>) returns (r: Salida)
      requires Valid()
      modifies this
      ensures Valid()
      ensures match AgregarAlFinal(old(pacientes), pac)
        case Ok(t) => r == Exito && pacientes == t
        case Err(e) => r == Falla(e) && pacientes == old(pacientes)
    {
      if pac.None? {
        return Falla(PacienteNulo);
      }
      var existe := ExisteCodigo(pac.value.codigo);
      if existe {
        return Falla(CodigoRepetido);
      }
      AgregarAlFinalCorrecto(pacientes, pac);
      pacientes := pacientes + [pac.value];
      r := Exito;
    }

    method AgregarPacienteAntesDe(cod: int, pac: Option<Paciente>) returns (r: Salida)
      requires Valid()
      modifies this
      ensures Valid()
      ensures match AgregarAntesDe(old(pacientes), cod, pac)
        case Ok(t) => r == Exito && pacientes == t
        case Err(e) => r == Falla(e) && pacientes == old(pacientes)
    {
      if pac.None? {
        return Falla(PacienteNulo);
      }
      var existe := ExisteCodigo(pac.value.codigo);
      if existe {
        return Falla(CodigoRepetido);
      }
      var indice := BuscarIndice(cod);
      if indice.Err? {
        return Falla(indice.error);
      }
      AgregarAntesDeCorrecto(pacientes, cod, pac);
      pacientes := pacientes[..indice.value] + [pac.value] + pacientes[indice.value..];
      r := Exito;
    }

    method AgregarPacienteDespuesDe(cod: int, pac: Option<Paciente>) returns (r: Salida)
      requires Valid()
      modifies this
      ensures Valid()
      ensures match AgregarDespuesDe(old(pacientes), cod, pac)
        case Ok(t) => r == Exito && pacientes == t
        case Err(e) => r == Falla(e) && pacientes == old(pacientes)
    {
      if pac.None? {
        return Falla(PacienteNulo);
      }
      var existe := ExisteCodigo(pac.value.codigo);
      if existe {
        return Falla(CodigoRepetido);
      }
      var indice := BuscarIndice(cod);
      if indice.Err? {
        return Falla(indice.error);
      }
      AgregarDespuesDeCorrecto(pacientes, cod, pac);
      pacientes := pacientes[..indice.value + 1] + [pac.value] + pacientes[indice.value + 1..];
      r := Exito;
    }

    /** The patient with code `codigo`, or None where the source returns null. */
    method Localizar(codigo: int) returns (r: Option<Paciente>)
      ensures r == Localizado(pacientes, codigo)
      ensures r.None? <==> !Contiene(pacientes, codigo)
      ensures r.Some? ==> r.value in pacientes && r.value.codigo == codigo
    {
      for i := 0 to |pacientes|
        invariant forall j :: 0 <= j < i ==> pacientes[j].codigo != codigo
      {
        if pacientes[i].codigo == codigo {
          return Some(pacientes[i]);
        }
      }
      return None;
    }

    method EliminarPaciente(cod: int) returns (r: Salida)
      requires Valid()
      modifies this
      ensures Valid()
      ensures match Eliminar(old(pacientes), cod)
        case Ok(t) => r == Exito && pacientes == t
        case Err(e) => r == Falla(e) && pacientes == old(pacientes)
    {
      var indice := BuscarIndice(cod);
      if indice.Err? {
        return Falla(indice.error);
      }
      QuitarConservaUnicos(pacientes, indice.value);
      pacientes := pacientes[..indice.value] + pacientes[indice.value + 1..];
      r := Exito;
    }

    /** The counting loop shared by CantHombres and CantMujeres. */
    method ContarSexo(sexo: char) returns (n: nat)
      ensures n == CuentaSexo(pacientes, sexo)
    {
      n := 0;
      for i := 0 to |pacientes|
        invariant n == CuentaSexo(pacientes[..i], sexo)
      {
        assert pacientes[..i + 1][..i] == pacientes[..i];
        if pacientes[i].sexo == sexo {
          n := n + 1;
        }
      }
      assert pacientes[..|pacientes|] == pacientes;
    }

    method CantHombres() returns (hombres: nat)
      ensures hombres == CuentaSexo(pacientes, 'M')
      ensures hombres + CuentaSexo(pacientes, 'F') <= |pacientes|
    {
      hombres := ContarSexo('M');
      CuentaSexoCorrecta(pacientes);
    }

    method CantMujeres() returns (mujeres: nat)
      ensures mujeres == CuentaSexo(pacientes, 'F')
      ensures CuentaSexo(pacientes, 'M') + mujeres <= |pacientes|
    {
      mujeres := ContarSexo('F');
      CuentaSexoCorrecta(pacientes);
    }

    /** The busiest clinic: the first of the catalogue with the largest
        number of patients (the first clinic when nobody is registered).
        Every patient's clinic must be in the catalogue. */
    method Metodo4() returns (nombre: string)
      requires Valid()
      requires forall i :: 0 <= i < |pacientes| ==> pacientes[i].clinica in listaClinicas
      ensures nombre == listaClinicas[PrimerMaximo(Conteos(pacientes, listaClinicas))]
    {
      ClinicasPredefinidasDistintas();
      var conteo := ContarPorClinica(pacientes, listaClinicas);
      var indiceMasOcupada := PosicionMaxima(conteo);
      nombre := listaClinicas[indiceMasOcupada];
    }
  }

  /** The per-clinic patient counts that the busiest-clinic query fills
      in: one slot per catalogue entry, each patient counted in the slot of
      its clinic's position in the catalogue. */
  method ContarPorClinica(pacientes: seq<Paciente>, clinicas: seq<string>) returns (conteo: array<nat>)
    requires Distintas(clinicas)
    requires forall i :: 0 <= i < |pacientes| ==> pacientes[i].clinica in clinicas
    ensures fresh(conteo)
    ensures conteo[..] == Conteos(pacientes, clinicas)
  {
    conteo := new nat[|clinicas|];
    for i := 0 to conteo.Length
      invariant forall j :: 0 <= j < i ==> conteo[j] == 0
    {
      conteo[i] := 0;
    }
    for k := 0 to |pacientes|
      invariant forall c :: 0 <= c < conteo.Length ==>
        conteo[c] == CuentaClinica(pacientes[..k], clinicas[c])
    {
      var indiceClinica := PosicionDe(clinicas, pacientes[k].clinica);
      CuentaClinicaPaso(pacientes, k);
      conteo[indiceClinica] := conteo[indiceClinica] + 1;
    }
    assert pacientes[..|pacientes|] == pacientes;
  }

  /** The running-maximum scan of the busiest-clinic query: it starts from
      slot 0 with a maximum of 0 and moves only on a strictly larger count. */
  method PosicionMaxima(conteo: array<nat>) returns (indiceMasOcupada: nat)
    requires conteo.Length > 0
    ensures indiceMasOcupada == PrimerMaximo(conteo[..])
  {
    var max := 0;
    indiceMasOcupada := 0;
    for i := 0 to conteo.Length
      invariant i == 0 ==> max == 0 && indiceMasOcupada == 0
      invariant 0 < i ==> indiceMasOcupada == PrimerMaximo(conteo[..i])
      invariant 0 < i ==> max == conteo[indiceMasOcupada]
    {
      assert conteo[..i + 1][..i] == conteo[..i];
      if conteo[i] > max {
        max := conteo[i];
        indiceMasOcupada := i;
      }
    }
    assert conteo[..conteo.Length] == conteo[..];
  }
}
