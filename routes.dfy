/** The application's own pages that the authentication code redirects to. */
module Routes {
  const Root: string := "/"
  const Login: string := "/login"
  const ResetPassword: string := "/reset-password"
  const AuthCodeError: string := "/auth/auth-code-error"
  const Dashboard: string := "/dashboard"
  const ForgotPassword: string := "/forgot-password"
}
