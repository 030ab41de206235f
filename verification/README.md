# Credit service: installment calculator and loan workflow

A Dafny model of `CreditoService`, the business logic of a small loan
management API. The model covers three parts:

- **Installment calculator** (`CalcularCuotaMensual`). It refuses a
  non-positive amount, annual rate or term. Otherwise it applies the French
  (annuity) amortization formula: with monthly rate r = annual / 100 / 12,
  the installment is P·r / (1 − (1 + r)^−n). The model works over exact
  `real` arithmetic and writes (1 + r)^−n as 1 / (1 + r)^n, with a recursive
  natural power `Pow`. Its partner is an independent reference definition,
  the amortization schedule `Balance`: each month the balance earns interest,
  then the payment is deducted. The lemmas prove three things. Paying the
  computed installment leaves a zero balance after n months. No other constant
  payment does. The borrower repays more than was lent.
- **Loan workflow** (`SolicitarCredito`, `AprobarCredito`). The database is a
  value `Store<C>`: a map from credit id to `Credit` record and a map from
  client id to an opaque client record `C`. A request checks that the client
  exists. It then sets the status to `"Pendiente"`, the outstanding balance to
  the amount and the request time to the clock's value. It computes the
  installment and only then inserts the record. Approval is the guarded
  transition `"Pendiente"` → `"Aprobado"`. Any other case answers false and
  changes nothing. Both operations preserve the store invariant `Valid`.
- **Reads** (`ObtenerTodosAsync`, `GetClienteByIdAsync`,
  `ObtenerCreditosPorCliente`). The last one is a group-and-count over the
  credits. It is modelled as a method with a loop. Its result's keys are
  exactly the clients that have credits, and each value is the size of the
  set of that client's credit ids. A ghost sum, `MapSum.Total`, shows that
  the values add up to the number of credits.

Files: `results.dfy` (module `Results`: `Option`, `Result`, `Error`),
`installment.dfy` (module `Installment`), `credit_service.dfy` (module
`CreditService`), `map_sum.dfy` (module `MapSum`: sums of map values).

Three choices follow the service's code as written:

- Approval answers only `true`/`false`. The code has no separate
  "not found" and "not pending" results (line 45).
- A request for an unknown client fails with `ClientNotFound` even when the
  amount, rate or term is also invalid. The client lookup comes first
  (lines 55-59).
- Besides the new store, a successful request returns the stored record.
  The service itself returns `true`. The record is exactly what the store
  holds under the new id.

## Model

| member | source | states |
|---|---|---|
| Installment.MonthlyInstallment | Aplicacion/Services/CreditoService.cs:19-31 | fails with `InvalidInput` exactly when the amount, rate or term is non-positive, and any one of the three suffices; otherwise succeeds with a strictly positive installment |
| Installment.MonthlyRate | Aplicacion/Services/CreditoService.cs:25 | the monthly rate is one twelve-hundredth of the annual percentage, and is positive exactly when the annual rate is |
| Installment.InstallmentEquation | Aplicacion/Services/CreditoService.cs:25-28 | for valid inputs, with G = (1 + r)^n: G > 1 (so 0 < 1/G < 1 and the division is defined), and the installment q satisfies q·(G − 1) = P·r·G, which is P·r / (1 − 1/G) |
| Installment.InstallmentRepaysLoan | Aplicacion/Services/CreditoService.cs:27-28 | paying the computed installment every month for the whole term leaves a zero balance on the amortization schedule |
| Installment.OnlyInstallmentRepaysLoan | Aplicacion/Services/CreditoService.cs:27-28 | a constant monthly payment clears the loan exactly at the end of the term if and only if it equals the computed installment |
| Installment.TotalRepaidExceedsAmount | Aplicacion/Services/CreditoService.cs:21-30 | for any positive rate, term × installment is strictly greater than the amount lent |
| Installment.ExampleInstallment | Aplicacion/Services/CreditoService.cs:19-30 | 10000 at 12% a year over 12 months gives an installment strictly between 888.48 and 888.50 |
| CreditService.FindCredit | Aplicacion/Services/CreditoService.cs:44 | the lookup finds a credit exactly when the id is in the store, and then returns that credit |
| CreditService.FindClient | Aplicacion/Services/CreditoService.cs:83-86 | the lookup finds a client exactly when the id is in the store, and then returns that client record |
| CreditService.AllCredits | Aplicacion/Services/CreditoService.cs:34-39 | lists every credit of the store once, unchanged; a client is attached exactly when the credit's client exists, and the attached client is that credit's own client record |
| CreditService.Approve | Aplicacion/Services/CreditoService.cs:42-50 | answers true exactly when the id exists and its status is "Pendiente"; on false the store is unchanged; on true the status becomes "Aprobado", no other field of that credit changes, no other credit changes, and the ids and the clients stay the same |
| CreditService.Request | Aplicacion/Services/CreditoService.cs:53-71 | fails with `ClientNotFound` exactly when the client is missing; for an existing client, fails with `InvalidInput` exactly when amount, rate or term is non-positive; every failure leaves the store unchanged; a success adds exactly one credit under the new id, with the caller's client, amount, rate and term, status "Pendiente", balance equal to the amount, the given time, and the installment the calculator gives; all other credits and the clients are kept |
| CreditService.ApprovePreservesValid | Aplicacion/Services/CreditoService.cs:45-49 | approval keeps every credit filed under its own id, attached to an existing client, with its derived fields intact and its status "Pendiente" or "Aprobado" |
| CreditService.RequestPreservesValid | Aplicacion/Services/CreditoService.cs:55-69 | a request keeps the same invariant: the new credit refers to an existing client and its installment, balance and status are the derived ones |
| CreditService.SecondApprovalIsNoOp | Aplicacion/Services/CreditoService.cs:45 | approving the same id again answers false and leaves the store as the first approval left it |
| CreditService.ApprovalRefusedOnlyWhenMissingOrApproved | Aplicacion/Services/CreditoService.cs:44-45 | on a valid store, approval is refused exactly when the id is missing or the credit is already "Aprobado" |
| CreditService.RequestThenRead | Aplicacion/Services/CreditoService.cs:61-69 | after a successful request, looking up the new id returns exactly the stored record; the full listing shows that record with its client; approving it then succeeds |
| CreditService.AllCreditsHaveClients | Aplicacion/Services/CreditoService.cs:36-38 | on a valid store, every credit in the listing comes with its own client, the record stored under its client id |
| CreditService.CountByClient | Aplicacion/Services/CreditoService.cs:76-82 | the keys are exactly the client ids that occur among the credits; each value is the number of credits of that client; the values sum to the number of credits |
| CreditService.RequestCountsOneMore | Aplicacion/Services/CreditoService.cs:61-68 | a successful request adds one to the credit count of the requesting client and leaves every other client's count unchanged |
| CreditService.ApproveKeepsCounts | Aplicacion/Services/CreditoService.cs:45-49 | approval changes no client's set of credits |

## Left out

- Entity Framework persistence is left out: the context, `FindAsync`,
  `SaveChangesAsync`, `Include` and `ToDictionaryAsync`. So are async/await
  and store failures. The store is a plain value, and every write returns the
  new store.
- The order of rows returned by the listing is not modelled. `AllCredits`
  returns the credits keyed by id.
- Request: the new credit's id comes from the database's identity column. In
  the model it is the parameter `newId`, with `requires newId !in s.credits`
  standing for the fact that the database never reuses a key.
- Request: `DateTime.UtcNow` is the parameter `now`.
- Request: on a failed calculation, the service has already written status,
  time and balance into the caller's object. Nothing is saved, so only this
  change to the caller's object is lost in the model.
- Installment.MonthlyInstallment: the model computes exactly over `real`. It
  does not model `decimal` division rounding (28 significant digits), the
  round trip through `double` around `Math.Pow`, or `decimal` overflow on huge
  amounts. A positive monthly rate too small to change `1 + r` in double
  precision would make the service divide by zero. The exact model has no
  such case.
- Rounding of the stored installment to `decimal(18,2)` and the schema
  migration that adds that column
  (`Infrastructure/Migrations/20250224170752_SistemaCreditosDB.cs`) are left
  out. They are database schema concerns.
- Two concurrent approvals of the same credit are left out. The outcome
  depends on the database's update semantics, not on this code.
- Exception types and messages become the `Error` variants `InvalidInput`
  and `ClientNotFound`.
- The client record's attributes are not modelled. No part of this logic
  reads them, so the client type is a parameter.
