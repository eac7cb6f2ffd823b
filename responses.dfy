/** The answers the vault's routes give: a body, a bare status, a redirect, or a
    redirect carrying a flash message (the `VaultResponse` constructors the routes use). */
module Responses {

  const BadRequest: nat := 400
  const NotFound: nat := 404
  const InternalServerError: nat := 500

  /** The pages the routes redirect to. */
  datatype Page =
    | LoginPage
    | VaultPage
    | TablePage(tableId: nat)
    | AddTablePage
    | EditTablePage(tableId: nat)

  datatype FlashKind = FlashSuccess | FlashError

  datatype VaultResponse<T> =
    | Body(body: T)
    | Status(code: nat)
    | Redirect(page: Page)
    | FlashRedirect(page: Page, kind: FlashKind, message: string)
}
