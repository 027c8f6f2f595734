/** The error responses the views produce. */
module Http {

  datatype HttpError =
    | NotFound                 // Http404, or a JSON reply with status 404
    | Forbidden                // PermissionDenied, or a JSON reply with status 403
    | LoginRequired            // LoginRequiredMixin sends an anonymous user to the login page
    | MultipleObjectsReturned  // get_object_or_404 matched more than one row
}
