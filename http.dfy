/** What a route handler hands back to Express, reduced to a value. */
module Http {
  datatype Response =
    | Status(code: int, body: string)   // res.status(code).send(body)
    | Redirect(location: string)        // res.redirect(location)
    | Json(codes: seq<string>)          // res.json({ codes })
    | NoResponse                        // the handler returns without answering
}
