/** The HTTP errors the endpoint raises (FastAPI's `HTTPException`). */
module Http {

  datatype HttpError = HttpError(status: int, detail: string)
}
