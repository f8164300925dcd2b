/** The settings of admin/includes/config.php that the core reads. The database
    connection settings are not part of this model. */
module Config {

  /** The one admin account. */
  const AdminUsername: string := "admin"
  const AdminPassword: string := "admin123"

  /** Base URL of the admin site and the URL prefix of the upload directory. */
  const SiteUrl: string := "http://localhost/nows/admin/"
  const UploadUrl: string := "uploads/"

  /** The image extensions an upload may have, lower case. */
  const AllowedExtensions: seq<string> := ["jpg", "jpeg", "png", "gif", "webp"]

  /** The largest upload accepted, in bytes (5 MB). */
  const MaxFileSize: int := 5 * 1024 * 1024
}
