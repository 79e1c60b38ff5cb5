/**
 * The records of the application (types.ts): chat messages, provider settings,
 * the generated file map and the saved-session record kept in the history list.
 */
module Types {

  datatype Option<T> = None | Some(value: T)

  /** Who wrote a chat message. */
  datatype Role = User | Model

  datatype Message = Message(role: Role, content: string)

  /** The two streaming back ends. */
  datatype AIProvider = Gemini | OpenRouter

  datatype AISettings = AISettings(provider: AIProvider, apiKey: string, model: string)

  /** Relative path of a generated file to its full text. */
  type ProjectFiles = map<string, string>

  datatype SavedSession = SavedSession(
    id: string,
    title: string,
    messages: seq<Message>,
    projectFiles: ProjectFiles,
    previewHtml: string,
    lastModified: int)

  /** The words the app looks for in an error to tell that the API key is missing. */
  const KeyHint := "API Key"
}
