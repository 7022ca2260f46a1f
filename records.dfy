/** The records the vault stores: credentials and the application settings. */
module Records {
  import opened Wrappers

  /** A saved login. `lastUsed` is optional. */
  datatype LoginCredential = LoginCredential(
    id: string,
    url: string,
    username: string,
    password: string,
    name: string,
    createdAt: int,
    lastUsed: Option<int>)

  datatype AppSettings = AppSettings(
    autoFillEnabled: bool,
    lockAfterMinutes: int,
    passwordLength: int,
    useSymbols: bool,
    useNumbers: bool,
    useLowercase: bool,
    useUppercase: bool)

  /** The settings in force until the user saves others. */
  const DefaultSettings := AppSettings(
    autoFillEnabled := true,
    lockAfterMinutes := 5,
    passwordLength := 16,
    useSymbols := true,
    useNumbers := true,
    useLowercase := true,
    useUppercase := true)
}
