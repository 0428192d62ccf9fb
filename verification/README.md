# Central de Pacientes — a verified model of the patient registry

The registry `CentralPacientes` keeps an ordered list of patients and a fixed
catalogue of six clinics. Callers choose the order of the list: a patient is
added at the head, at the tail, just before or just after the patient with a
given code. Patients can be looked up and removed by code. Three queries read
the list: the number of men, the number of women, and the busiest clinic.
Patient codes are unique. Every insertion checks this by a scan before it
changes anything.

The model has two modules.

- `ListaPacientes` (lista.dfy) holds the patient record `Paciente(codigo, sexo, clinica)`,
  the three errors (`PacienteNulo` for the `NullPointerException`,
  `CodigoRepetido` for the `IllegalArgumentException`, `NoExiste` for the
  `NoExisteException`) and each operation as a function on `seq<Paciente>`.
  The lemmas there state what these functions mean:
  - codes stay unique;
  - the new patient lands next to its reference;
  - removing the new patient gives the old list back, and putting a removed
    patient back where it was restores the list;
  - failures report the right error, in the source's order;
  - the counts by sex are bounded by the list length;
  - the busiest clinic is the first one with the largest count.
- `Central` (central.dfy) holds the class `CentralPacientes`. Its field
  `pacientes: seq<Paciente>` is reassigned in place by the operations. Its
  `const listaClinicas` is set once by the constructor. `Valid()` is the
  class invariant: codes are pairwise distinct, and the catalogue is the
  predefined one. Every mutating method keeps `Valid()`. Each one states its
  new list and its outcome as the reference function applied to the old
  list. The scans (duplicate check, `buscarIndice`, `localizar`, the counts,
  `metodo4`) are loops with invariants, proved against those functions.

An absent patient (Java `null`) is `None` of `Option<Paciente>`. A void
method that may throw returns a `Salida`: either `Exito` or `Falla(error)`.
The queries have no `modifies` clause, so they provably leave the registry
unchanged.

Two choices of the model concern edge cases of the source:

- A patient whose clinic is not in the catalogue makes `indexOf` return -1,
  and the array access at `src/centralPacientes/mundo/CentralPacientes.java:258`
  throws. `Metodo4` therefore requires every patient's clinic to be in the
  catalogue.
- The source counts men and women in two loops, `cantHombres` and
  `cantMujeres`, comparing the sex character with `'M'` and `'F'`. The model
  shares one loop, `ContarSexo`, between them. A sex other than `'M'` or
  `'F'` counts for neither.

## Model

| member | source | states |
|---|---|---|
| ListaPacientes.Indice | src/centralPacientes/mundo/CentralPacientes.java:135-143 | the result is the smallest index whose code is `cod`, and it is within bounds; it is absent exactly when no patient has that code |
| ListaPacientes.Localizado | src/centralPacientes/mundo/CentralPacientes.java:171-179 | the patient found is in the list and has the code asked for; the result is absent (null) exactly when no patient has that code |
| ListaPacientes.Validar | src/centralPacientes/mundo/CentralPacientes.java:73-83 | the checks every insertion runs before changing anything: passes exactly for a present patient with a new code; an absent patient gives `PacienteNulo`, a repeated code `CodigoRepetido` |
| ListaPacientes.AgregarAlComienzo | src/centralPacientes/mundo/CentralPacientes.java:72-87 | fails exactly when the checks fail, never with `NoExiste`; on success the new list is the patient followed by the old list, one longer |
| ListaPacientes.AgregarAlFinal | src/centralPacientes/mundo/CentralPacientes.java:95-110 | fails exactly when the checks fail, never with `NoExiste`; on success the new list is the old list followed by the patient, one longer |
| ListaPacientes.AgregarAntesDe | src/centralPacientes/mundo/CentralPacientes.java:115-133 | fails with `NoExiste` exactly when the checks pass but no patient has the reference code; on success the list is one longer and the patient sits at the reference's old index |
| ListaPacientes.AgregarDespuesDe | src/centralPacientes/mundo/CentralPacientes.java:148-166 | fails with `NoExiste` exactly when the checks pass but no patient has the reference code; on success the list is one longer and the patient sits right after the reference's index |
| ListaPacientes.Eliminar | src/centralPacientes/mundo/CentralPacientes.java:184-190 | fails, with `NoExiste`, exactly when no patient has the code; on success the list is one shorter |
| ListaPacientes.CuentaSexo | src/centralPacientes/mundo/CentralPacientes.java:215-238 | the number of patients of one sex: at most the list length, 0 on an empty list |
| ListaPacientes.CuentaClinica | src/centralPacientes/mundo/CentralPacientes.java:255-259 | the number of patients of one clinic: at most the list length, 0 on an empty list |
| ListaPacientes.Conteos | src/centralPacientes/mundo/CentralPacientes.java:247-259 | one count per catalogue clinic, in catalogue order, each at most the list length |
| ListaPacientes.PosicionDe | src/centralPacientes/mundo/CentralPacientes.java:257 | `indexOf` gives -1 exactly when the name is not in the catalogue, and otherwise the first position holding that name |
| ListaPacientes.PrimerMaximo | src/centralPacientes/mundo/CentralPacientes.java:262-269 | the running-maximum scan with a strict `>` gives a valid position whose count is at least every count, and every earlier count is strictly smaller: the first largest count |
| ListaPacientes.AgregarRechazado | src/centralPacientes/mundo/CentralPacientes.java:72-166 | all four insertions fail with `PacienteNulo` on an absent patient and with `CodigoRepetido` on a code already present, even when the reference code is missing |
| ListaPacientes.AgregarAlComienzoCorrecto | src/centralPacientes/mundo/CentralPacientes.java:72-87 | insertion at the head succeeds exactly for a present patient with a new code; then the new patient is first, followed by the old list; the size grows by one; codes stay unique; the patient is found by its code; removing it gives the old list back |
| ListaPacientes.AgregarAlFinalCorrecto | src/centralPacientes/mundo/CentralPacientes.java:95-110 | insertion at the tail succeeds exactly for a present patient with a new code; then the old list comes first, followed by the new patient; the size grows by one; codes stay unique; the patient is found by its code; removing it gives the old list back |
| ListaPacientes.AgregarAntesDeCorrecto | src/centralPacientes/mundo/CentralPacientes.java:115-133 | insertion before a reference succeeds exactly for a present patient with a new code and an existing reference; then the new patient sits immediately before the reference; the size grows by one; codes stay unique; removing the new patient gives the old list back, so every other patient keeps its order |
| ListaPacientes.AgregarDespuesDeCorrecto | src/centralPacientes/mundo/CentralPacientes.java:148-166 | insertion after a reference succeeds exactly for a present patient with a new code and an existing reference; then the new patient sits immediately after the reference; the size grows by one; codes stay unique; removing the new patient gives the old list back, so every other patient keeps its order |
| ListaPacientes.EliminarCorrecto | src/centralPacientes/mundo/CentralPacientes.java:184-190 | removal fails with `NoExiste` exactly when the code is missing; otherwise the size drops by one, codes stay unique, and looking the code up gives null; putting the removed patient back before its old successor (or at the end when it was last) restores the list |
| ListaPacientes.CuentaSexoCorrecta | src/centralPacientes/mundo/CentralPacientes.java:215-238 | men plus women is at most the number of patients, and equal to it when every sex is 'M' or 'F' |
| ListaPacientes.MasOcupadaSinPacientes | src/centralPacientes/mundo/CentralPacientes.java:262-272 | when no patient is at any listed clinic (in particular with no patients), the busiest clinic is the first one of the catalogue |
| Central.ClinicasPredefinidasDistintas | src/centralPacientes/mundo/CentralPacientes.java:44-50 | the six predefined clinic names are pairwise distinct |
| Central.CentralPacientes.constructor | src/centralPacientes/mundo/CentralPacientes.java:41-51 | a new registry has no patients and the six-clinic catalogue whose last entry is "Otra"; the invariant holds |
| Central.CentralPacientes.DarNumeroPacientes | src/centralPacientes/mundo/CentralPacientes.java:62-64 | the number of patients, which bounds the number of men plus the number of women |
| Central.CentralPacientes.DarPacientes | src/centralPacientes/mundo/CentralPacientes.java:195-197 | a read-only view of the current list, whose codes are unique |
| Central.CentralPacientes.DarListaClinicas | src/centralPacientes/mundo/CentralPacientes.java:202-204 | the catalogue: six distinct names, the last "Otra" |
| Central.CentralPacientes.ExisteCodigo | src/centralPacientes/mundo/CentralPacientes.java:79-83 | the duplicate scan answers true exactly when some patient has the code |
| Central.CentralPacientes.BuscarIndice | src/centralPacientes/mundo/CentralPacientes.java:135-143 | the scan returns the first index holding the code, within bounds, and fails with `NoExiste` exactly when no patient has it |
| Central.CentralPacientes.AgregarPacienteAlComienzo | src/centralPacientes/mundo/CentralPacientes.java:72-87 | the invariant is kept; the outcome and the new list are those of `AgregarAlComienzo` on the old list, so on any failure the list is unchanged |
| Central.CentralPacientes.AgregarPacienteAlFinal | src/centralPacientes/mundo/CentralPacientes.java:95-110 | the invariant is kept; the outcome and the new list are those of `AgregarAlFinal` on the old list, so on any failure the list is unchanged |
| Central.CentralPacientes.AgregarPacienteAntesDe | src/centralPacientes/mundo/CentralPacientes.java:115-133 | the invariant is kept; the outcome and the new list are those of `AgregarAntesDe`: null check, then duplicate check, then reference lookup, then the splice; on any failure the list is unchanged |
| Central.CentralPacientes.AgregarPacienteDespuesDe | src/centralPacientes/mundo/CentralPacientes.java:148-166 | the invariant is kept; the outcome and the new list are those of `AgregarDespuesDe`: null check, then duplicate check, then reference lookup, then the splice; on any failure the list is unchanged |
| Central.CentralPacientes.Localizar | src/centralPacientes/mundo/CentralPacientes.java:171-179 | returns the patient with the code, which is in the list, or null exactly when there is none; the list is not modified |
| Central.CentralPacientes.EliminarPaciente | src/centralPacientes/mundo/CentralPacientes.java:184-190 | the invariant is kept; the outcome and the new list are those of `Eliminar` on the old list, so a missing code fails and changes nothing |
| Central.CentralPacientes.ContarSexo | src/centralPacientes/mundo/CentralPacientes.java:215-238 | the counting loop returns the number of patients of the given sex |
| Central.CentralPacientes.CantHombres | src/centralPacientes/mundo/CentralPacientes.java:215-224 | the number of patients with sex 'M'; together with the women it is at most the number of patients |
| Central.CentralPacientes.CantMujeres | src/centralPacientes/mundo/CentralPacientes.java:229-238 | the number of patients with sex 'F'; together with the men it is at most the number of patients |
| Central.ContarPorClinica | src/centralPacientes/mundo/CentralPacientes.java:248-259 | a fresh array with one slot per catalogue clinic, zeroed, then holding the number of patients of that clinic |
| Central.PosicionMaxima | src/centralPacientes/mundo/CentralPacientes.java:262-269 | the running-maximum scan over the counts returns the first position of the largest count (`PrimerMaximo`) |
| Central.CentralPacientes.Metodo4 | src/centralPacientes/mundo/CentralPacientes.java:246-273 | when every patient's clinic is in the catalogue, returns the catalogue clinic at the first position of the largest count (the first clinic when all counts are 0) |

## Left out

- Central.CentralPacientes.Metodo4: a patient whose clinic is not in the catalogue makes `indexOf` give -1, and the source then fails with an array index out of bounds. The model requires every clinic to be in the catalogue and does not model that failure.
- The `Paciente` class is not part of this model. A patient is a value with a code, a sex and a clinic. Its other fields and its object identity are not modelled: `localizar` returns an equal value, not the same object.
- Central.CentralPacientes.DarListaClinicas: `darListaClinicas` hands callers the live `ArrayList` of clinics, through which they could add, remove or reorder clinics and so change what `metodo4` counts and returns (an emptied list would make its final `get(0)` throw). This aliasing is not modelled: the catalogue is fixed after construction.
- `darPacientes` hands callers the live `ArrayList`, through which they could break the uniqueness of codes. The model gives a read-only view instead.
- The texts of the exception messages are not modelled. Only which error is raised is. This includes the message at line 81, which prints the clinic instead of the code.
- Java's 32-bit `int` is not modelled. Codes are only compared for equality. The counters and indices are bounded by the size of the list.
- The six clinic names are built by six `add` calls in the source. The model assigns the same list at once.
